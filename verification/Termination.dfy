/** Every run ends: each step but a rank change spends from a budget that the filesystem and the pool fix. */
module Terminations {
  import opened Coordinators
  import opened CoordinatorRuns
  import opened CoordinatorSteps
  import opened Scan
  import opened StoreModel
  import opened Terms
  import Schedulers

  // -- The closure is finite --------------------------------------------------------------------------

  /** The paths of the reachable closure under the mount policy. */
  ghost function Closure(directory: Directory, policy: MountPolicy): set<Path>
    decreases directory, 0
  {
    {[]} + if directory.Listing? then ClosureOf(directory.entries, policy, |directory.entries|) else {}
  }

  ghost function ClosureOf(entries: seq<Entry>, policy: MountPolicy, n: nat): set<Path>
    requires n <= |entries|
    decreases entries, n
  {
    if n == 0 then {}
    else
      ClosureOf(entries, policy, n - 1) + EntryPaths(entries[n - 1], policy, n - 1)
  }

  ghost function EntryPaths(entry: Entry, policy: MountPolicy, row: nat): set<Path>
    decreases entry, 0
  {
    if IsChild(entry.row, policy) then Below(row, Closure(entry.below, policy)) else {}
  }

  ghost function Below(row: nat, paths: set<Path>): set<Path> {
    set path | path in paths :: [row] + path
  }

  lemma {:induction false} ChildPathsAreListed(entries: seq<Entry>, policy: MountPolicy, n: nat, row: nat, path: Path)
    requires row < n <= |entries| && IsChild(entries[row].row, policy) && path in Closure(entries[row].below, policy)
    ensures [row] + path in ClosureOf(entries, policy, n)
  {
    if row < n - 1 { ChildPathsAreListed(entries, policy, n - 1, row, path); }
  }

  lemma {:induction false} ReachableIsInClosure(directory: Directory, policy: MountPolicy, path: Path)
    requires Reachable(directory, policy, path)
    ensures path in Closure(directory, policy)
    decreases |path|
  {
    if path != [] {
      var row, rest := path[0], path[1..];
      ReachableIsInClosure(directory.entries[row].below, policy, rest);
      ChildPathsAreListed(directory.entries, policy, |directory.entries|, row, rest);
      assert path == [row] + rest;
    }
  }

  ghost function PathsBelow(store: Store<seq<Entry>>, n: nat): set<Path>
    requires store.TreeShape() && n <= |store.records|
  {
    if n == 0 then {} else PathsBelow(store, n - 1) + {store.Path(n - 1)}
  }

  lemma {:induction false} PathBelow(store: Store<seq<Entry>>, n: nat, path: Path)
    requires store.TreeShape() && n <= |store.records| && path in PathsBelow(store, n)
    ensures exists id :: 0 <= id < n && store.HasPath(id, path)
  {
    if path in PathsBelow(store, n - 1) { PathBelow(store, n - 1, path); } else { assert store.HasPath(n - 1, path); }
  }

  lemma {:induction false} PathsAreApart(store: Store<seq<Entry>>, n: nat)
    requires store.TreeShape() && n <= |store.records|
    ensures |PathsBelow(store, n)| == n
  {
    if n > 0 {
      PathsAreApart(store, n - 1);
      var path := store.Path(n - 1);
      if path in PathsBelow(store, n - 1) {
        PathBelow(store, n - 1, path);
        var id :| 0 <= id < n - 1 && store.HasPath(id, path);
        store.PathIsInjective(id, n - 1);
      }
    }
  }

  lemma SubsetIsSmaller<T>(part: set<T>, whole: set<T>)
    requires part <= whole
    ensures |part| <= |whole|
  {
    assert whole == part + (whole - part);
  }

  /** A store never has more directories than the closure. */
  lemma RecordsFitClosure(c: Coordinator)
    requires c.StoreOk()
    ensures |c.store.records| <= |Closure(c.config.root, c.config.policy)|
  {
    var n := |c.store.records|;
    PathsAreApart(c.store, n);
    forall path | path in PathsBelow(c.store, n) ensures path in Closure(c.config.root, c.config.policy) {
      PathBelow(c.store, n, path);
      var id :| 0 <= id < n && c.store.HasPath(id, path);
      assert c.MatchesOracle(id);
      ReachableIsInClosure(c.config.root, c.config.policy, path);
    }
    SubsetIsSmaller(PathsBelow(c.store, n), Closure(c.config.root, c.config.policy));
  }

  // -- Directories still to come ----------------------------------------------------------------------

  ghost function IdsInFlight(inFlight: map<nat, Task>): set<nat> {
    set w | w in inFlight :: inFlight[w].id
  }

  lemma {:induction false} TasksAreApart(inFlight: map<nat, Task>)
    requires forall a, b :: a in inFlight && b in inFlight && a != b ==> inFlight[a].id != inFlight[b].id
    ensures |IdsInFlight(inFlight)| == |inFlight|
    decreases |inFlight|
  {
    if inFlight != map[] {
      var w :| w in inFlight;
      var rest := inFlight - {w};
      assert inFlight.Keys == rest.Keys + {w};
      assert |rest.Keys| == |rest| && |inFlight.Keys| == |inFlight|;
      TasksAreApart(rest);
      assert IdsInFlight(inFlight) == IdsInFlight(rest) + {inFlight[w].id};
    }
  }

  lemma InFlightIsNotMerged(c: Coordinator, w: nat)
    requires c.Core() && w in c.inFlight
    ensures c.inFlight[w].id !in c.merged && c.inFlight[w].id < |c.store.records|
  {
    assert c.WorkerOk(w);
    var id := c.inFlight[w].id;
    if c.IsPending(id) { assert c.store.ValidRecord(id) && !c.IsPublished(id); }
  }

  /** The IDs below `n`. */
  ghost function FirstIds(n: nat): set<nat> {
    if n == 0 then {} else FirstIds(n - 1) + {n - 1}
  }

  lemma {:induction false} FirstIdsAre(n: nat)
    ensures forall id: nat :: id in FirstIds(n) <==> id < n
  {
    if n > 0 { FirstIdsAre(n - 1); }
  }

  /** Directories of the closure that are neither counted, nor failed, nor in flight. */
  ghost function ToCome(c: Coordinator): int {
    |Closure(c.config.root, c.config.policy)| - |c.merged| - c.store.failed - |c.inFlight|
  }

  lemma ToComeIsNat(c: Coordinator)
    requires c.Core() && c.LocationOk()
    ensures ToCome(c) >= 0
  {
    var ids, failed, n := IdsInFlight(c.inFlight), c.store.InState(State.Failed), |c.store.records|;
    TasksAreApart(c.inFlight);
    forall id | id in ids ensures id !in c.merged && id !in failed && id < n {
      var w :| w in c.inFlight && c.inFlight[w].id == id;
      InFlightIsNotMerged(c, w);
      assert c.InFlight(id) && c.Located(id);
    }
    forall id | id in c.merged ensures id !in failed && id < n { assert c.IsPublished(id) && c.store.ValidRecord(id); }
    FirstIdsAre(n);
    CountBelow(FirstIds(n), n);
    SubsetIsSmaller(c.merged + failed + ids, FirstIds(n));
    assert |c.merged + failed + ids| == |c.merged| + |failed| + |ids|;
    RecordsFitClosure(c);
  }

  // -- The budget -------------------------------------------------------------------------------------

  /** What a worker can still do on its own or make the coordinator receive. */
  function Weight(worker: Worker): nat {
    3 * |worker.inbox| + (if worker.ran.Some? then 2 else 0) + |worker.mail| + if worker.alive then 2 else 0
  }

  function Weights(workers: map<nat, Worker>, n: nat): nat {
    if n == 0 then 0 else Weights(workers, n - 1) + if n - 1 in workers then Weight(workers[n - 1]) else 0
  }

  lemma {:induction false} WeightsBeyond(workers: map<nat, Worker>, w: nat, worker: Worker, n: nat)
    requires w >= n
    ensures Weights(workers[w := worker], n) == Weights(workers, n)
  {
    if n > 0 { WeightsBeyond(workers, w, worker, n - 1); }
  }

  lemma {:induction false} WeightsUpdate(workers: map<nat, Worker>, w: nat, worker: Worker, n: nat)
    requires w in workers && w < n
    ensures Weights(workers[w := worker], n) == Weights(workers, n) - Weight(workers[w]) + Weight(worker)
  {
    if w == n - 1 { WeightsBeyond(workers, w, worker, n - 1); } else { WeightsUpdate(workers, w, worker, n - 1); }
  }

  /** While running, four for each directory to come; and what the workers hold. */
  ghost function Budget(c: Coordinator, n: nat): int {
    (if c.mode.Running? then 4 * ToCome(c) else 0) + Weights(c.workers, n)
  }

  predicate WorkersBelow(c: Coordinator, n: nat) {
    forall w :: w in c.workers ==> w < n
  }

  // -- Workers spend ----------------------------------------------------------------------------------

  lemma WorkerSpends(c: Coordinator, after: Coordinator, w: nat, n: nat)
    requires w in c.workers && WorkersBelow(c, n)
    requires after.mode == c.mode && after.config == c.config && after.merged == c.merged && after.inFlight == c.inFlight
    requires after.store.failed == c.store.failed
    requires w in after.workers && after.workers == c.workers[w := after.workers[w]]
    ensures Budget(after, n) == Budget(c, n) - Weight(c.workers[w]) + Weight(after.workers[w])
  {
    WeightsUpdate(c.workers, w, after.workers[w], n);
  }

  lemma RunsSpends(c: Coordinator, w: nat, memory: bool, n: nat)
    requires c.CanRun(w) && WorkersBelow(c, n)
    ensures Budget(c.WorkerRuns(w, memory), n) < Budget(c, n)
  {
    WorkerSpends(c, c.WorkerRuns(w, memory), w, n);
  }

  lemma SendsSpends(c: Coordinator, w: nat, n: nat)
    requires c.CanSend(w) && WorkersBelow(c, n)
    ensures Budget(c.WorkerSends(w), n) < Budget(c, n)
  {
    WorkerSpends(c, c.WorkerSends(w), w, n);
  }

  lemma EndsSpends(c: Coordinator, w: nat, n: nat)
    requires WorkersBelow(c, n)
    ensures c.CanDie(w) ==> Budget(c.WorkerDies(w), n) < Budget(c, n)
    ensures c.CanStop(w) ==> Budget(c.WorkerStops(w), n) < Budget(c, n)
  {
    if c.CanDie(w) { WorkerSpends(c, c.WorkerDies(w), w, n); }
    if c.CanStop(w) { WorkerSpends(c, c.WorkerStops(w), w, n); }
  }

  // -- The coordinator spends -------------------------------------------------------------------------

  ghost predicate IdleIsFree(c: Coordinator) {
    Coordinator.Distinct(c.idle) && forall w :: w in c.idle ==> w !in c.inFlight && w in c.workers
  }

  lemma AssignedInFlight(inFlight: map<nat, Task>, w: nat, task: Task)
    requires w !in inFlight
    ensures |inFlight[w := task]| == |inFlight| + 1
  {
    assert inFlight[w := task].Keys == inFlight.Keys + {w};
    assert |inFlight[w := task].Keys| == |inFlight[w := task]| && |inFlight.Keys| == |inFlight|;
  }

  lemma AssignedWeight(c: Coordinator, w: nat, task: Task, n: nat)
    requires w in c.workers && WorkersBelow(c, n)
    ensures Weights(c.Assign(w, task).workers, n) <= Weights(c.workers, n) + 3 && WorkersBelow(c.Assign(w, task), n)
  {
    if c.workers[w].alive { WeightsUpdate(c.workers, w, c.Assign(w, task).workers[w], n); }
  }

  /** A task that is assigned is no longer to come, which pays for the request. */
  lemma AssignSpends(c: Coordinator, w: nat, task: Task, n: nat)
    requires c.mode.Running? && w in c.workers && w !in c.inFlight && WorkersBelow(c, n)
    ensures Budget(c.Assign(w, task), n) < Budget(c, n) && WorkersBelow(c.Assign(w, task), n)
  {
    AssignedInFlight(c.inFlight, w, task);
    AssignedWeight(c, w, task, n);
  }

  lemma AssignFirstSpends(c: Coordinator, n: nat)
    requires c.mode.Running? && IdleIsFree(c) && WorkersBelow(c, n) && c.idle != [] && c.scheduler.Pop().Some?
    ensures c.idle[0] in c.workers
    ensures var after := AssignFirst(c);
            after.mode.Running? && IdleIsFree(after) && WorkersBelow(after, n) && Budget(after, n) < Budget(c, n)
  {
    assert c.idle[0] in c.idle;
    var (popped, rest) := c.scheduler.Pop().value;
    AssignSpends(c.(scheduler := rest, idle := c.idle[1..]), c.idle[0], popped.data, n);
    assert forall v :: v in c.idle[1..] ==> v in c.idle && v != c.idle[0];
  }

  lemma {:induction false} DispatchSpends(c: Coordinator, n: nat)
    requires c.mode.Running? && IdleIsFree(c) && WorkersBelow(c, n)
    ensures Budget(c.Dispatch(), n) <= Budget(c, n) && c.Dispatch().mode.Running?
    decreases |c.idle|
  {
    if c.idle != [] && c.scheduler.Pop().Some? {
      AssignFirstSpends(c, n);
      DispatchSpends(AssignFirst(c), n);
    }
  }

  lemma DispatchAndFinishSpends(c: Coordinator, n: nat)
    requires c.mode.Running? && c.Core() && c.RunningOk() && WorkersBelow(c, n)
    ensures Budget(c.DispatchAndFinish(), n) <= Budget(c, n)
  {
    PoolIsFree(c);
    DispatchSpends(c, n);
    DispatchLeavesNat(c);
    FinishSpends(c.Dispatch(), n);
  }

  lemma PoolIsFree(c: Coordinator)
    requires c.FlightOk() && c.PoolOk()
    ensures IdleIsFree(c)
  {
  }

  lemma DispatchLeavesNat(c: Coordinator)
    requires c.Core() && c.RunningOk()
    ensures ToCome(c.Dispatch()) >= 0
  {
    DispatchKeeps(c);
    ToComeIsNat(c.Dispatch());
  }

  lemma FinishSpends(c: Coordinator, n: nat)
    requires c.mode.Running? && ToCome(c) >= 0
    ensures Budget(c.Stop(Completed), n) <= Budget(c, n)
  {
  }

  lemma ReceivedSpends(c: Coordinator, w: nat, n: nat)
    requires c.CanDeliver(w) && WorkersBelow(c, n)
    ensures Budget(c.Received(w), n) == Budget(c, n) - 1
    ensures Weights(c.Received(w).workers, n) == Weights(c.workers, n) - 1
  {
    WorkerSpends(c, c.Received(w), w, n);
  }

  /** A result that leaves the run going makes its directory counted or failed. */
  lemma ResultSettlesOne(c: Coordinator, task: Task, result: WorkerResult, memory: bool)
    requires task.id !in c.merged
    ensures var after := c.HandleResult(task, result, memory);
            && after.workers == c.workers && after.config == c.config
            && (after.mode.Running? ==>
                  && after.inFlight == c.inFlight
                  && |after.merged| + after.store.failed == |c.merged| + c.store.failed + 1)
  {
    if result.Scanned? { assert |c.merged + {task.id}| == |c.merged| + 1; }
  }

  lemma FreedComesAgain(c: Coordinator, w: nat)
    requires HasResult(c, w) && w in c.inFlight
    ensures |Freed(c, w).inFlight| == |c.inFlight| - 1
  {
    var rest := Freed(c, w).inFlight;
    assert c.inFlight.Keys == rest.Keys + {w};
    assert |rest.Keys| == |rest| && |c.inFlight.Keys| == |c.inFlight|;
  }

  lemma HandledSpends(c: Coordinator, w: nat, memory: bool)
    requires c.Core() && c.mode.Running? && HasResult(c, w) && w in c.inFlight
    ensures var handled := Handled(c, w, memory);
            && handled.workers == c.Received(w).workers
            && (handled.mode.Running? ==> ToCome(handled) == ToCome(c))
  {
    InFlightIsNotMerged(c, w);
    FreedComesAgain(c, w);
    ResultSettlesOne(Freed(c, w), c.inFlight[w], c.workers[w].mail[0].result, memory);
  }

  lemma HandledBudget(c: Coordinator, handled: Coordinator, w: nat, memory: bool, n: nat)
    requires c.Inv() && c.mode.Running? && HasResult(c, w) && w in c.inFlight && WorkersBelow(c, n)
    requires handled == Handled(c, w, memory)
    ensures Budget(handled, n) < Budget(c, n) && WorkersBelow(handled, n)
  {
    ReceivedSpends(c, w, n);
    HandledSpends(c, w, memory);
    ToComeIsNat(c);
  }

  lemma ReportedSpends(c: Coordinator, w: nat, memory: bool, n: nat)
    requires c.Inv() && c.mode.Running? && HasResult(c, w) && WorkersBelow(c, n)
    ensures Budget(c.Deliver(w, memory), n) < Budget(c, n)
  {
    var handled := Handled(c, w, memory);
    DeliveredResult(c, w, memory);
    HandledBudget(c, handled, w, memory, n);
    if handled.mode.Running? {
      HandleCore(c, w, memory);
      HandleRunning(c, w, memory);
      DispatchAndFinishSpends(handled, n);
    }
  }

  /** Any other message ends a running run, or is taken by one that ends already. */
  lemma OtherDelivery(c: Coordinator, w: nat, memory: bool)
    requires c.CanDeliver(w) && w in c.monitored && (c.mode.Running? ==> !HasResult(c, w))
    ensures !c.Deliver(w, memory).mode.Running? && c.Deliver(w, memory).workers == c.Received(w).workers
  {
  }

  lemma DeliverSpends(c: Coordinator, w: nat, memory: bool, n: nat)
    requires c.Inv() && c.CanDeliver(w) && WorkersBelow(c, n)
    ensures Budget(c.Deliver(w, memory), n) < Budget(c, n)
  {
    if c.mode.Running? && HasResult(c, w) {
      ReportedSpends(c, w, memory, n);
    } else {
      c.MailShape(w);
      OtherDelivery(c, w, memory);
      ReceivedSpends(c, w, n);
      if c.mode.Running? { ToComeIsNat(c); }
    }
  }

  lemma RanksSpend(c: Coordinator, values: map<Term, Term>, n: nat)
    requires c.Inv() && WorkersBelow(c, n)
    ensures Budget(c.PutRankData(values), n) <= Budget(c, n)
  {
    if c.mode.Running? {
      c.scheduler.PutDataRecomputes(values);
      match c.scheduler.PutData(values)
      case Ok(next) =>
        var after := c.(scheduler := next);
        c.SameCore(after);
        RerankMovesNothing(c, after);
        DispatchAndFinishSpends(after, n);
      case RankError =>
    }
  }

  // -- Runs -------------------------------------------------------------------------------------------

  lemma NextSpends(c: Coordinator, event: Event, n: nat)
    requires c.Inv() && WorkersBelow(c, n)
    ensures Budget(Next(c, event), n) <= Budget(c, n) - if Enabled(c, event) && !event.ChangesRanks? then 1 else 0
  {
    if Enabled(c, event) {
      match event
      case Runs(w, memory) => RunsSpends(c, w, memory, n);
      case Sends(w) => SendsSpends(c, w, n);
      case Dies(w) => EndsSpends(c, w, n);
      case Stops(w) => EndsSpends(c, w, n);
      case Delivers(w, memory) => DeliverSpends(c, w, memory, n);
      case ChangesRanks(values) => RanksSpend(c, values, n);
    }
  }

  lemma BudgetIsNat(c: Coordinator, n: nat)
    requires c.Inv()
    ensures Budget(c, n) >= 0
  {
    if c.mode.Running? { ToComeIsNat(c); }
  }

  lemma NextKeepsWorkers(c: Coordinator, event: Event)
    ensures Next(c, event).workers.Keys == c.workers.Keys
  {
    if Enabled(c, event) {
      match event
      case Delivers(w, memory) => DeliverKeepsWorkers(c, w, memory);
      case ChangesRanks(values) =>
        var put := c.scheduler.PutData(values);
        if put.Ok? { FinishKeepsWorkers(c.(scheduler := put.value), 0); }
      case _ =>
    }
  }

  lemma {:induction false} DispatchWorkers(c: Coordinator)
    ensures c.Dispatch().workers.Keys == c.workers.Keys
    decreases |c.idle|
  {
    if c.idle != [] && c.scheduler.Pop().Some? && c.idle[0] in c.workers { DispatchWorkers(AssignFirst(c)); }
  }

  lemma HandledWorkers(c: Coordinator, w: nat, memory: bool)
    requires HasResult(c, w) && w in c.inFlight
    ensures Handled(c, w, memory).workers == c.Received(w).workers
  {
  }

  lemma DeliverKeepsWorkers(c: Coordinator, w: nat, memory: bool)
    requires c.CanDeliver(w)
    ensures c.Deliver(w, memory).workers.Keys == c.workers.Keys
  {
    if c.mode.Running? && HasResult(c, w) && w in c.inFlight && c.inFlight[w].id == c.workers[w].mail[0].id {
      var handled := Handled(c, w, memory);
      HandledWorkers(c, w, memory);
      FinishKeepsWorkers(handled, 0);
      assert c.Deliver(w, memory) == handled.DispatchAndFinish();
    }
  }

  /** The events of a run that can happen when their turn comes, rank changes aside. */
  ghost function Steps(c: Coordinator, events: seq<Event>): nat
    decreases |events|
  {
    if events == [] then 0
    else (if Enabled(c, events[0]) && !events[0].ChangesRanks? then 1 else 0) + Steps(Next(c, events[0]), events[1..])
  }

  lemma {:induction false} StepsFitBudget(c: Coordinator, events: seq<Event>, n: nat)
    requires c.Inv() && WorkersBelow(c, n)
    ensures Steps(c, events) <= Budget(c, n)
    decreases |events|
  {
    if events == [] {
      BudgetIsNat(c, n);
    } else {
      var next := Next(c, events[0]);
      NextSpends(c, events[0], n);
      NextInv(c, events[0]);
      NextKeepsWorkers(c, events[0]);
      SameWorkersBelow(c, next, n);
      StepsFitBudget(next, events[1..], n);
    }
  }

  /**
   * However long a run and however often ranks change: workers and coordinator take at most four steps for each
   * directory of the closure and two for each worker, so there is no endless run.
   */
  lemma EveryRunIsBounded(config: Config, ranker: Ranker, data: map<Term, Term>, n: nat, events: seq<Event>)
    requires n > 0 && Schedulers.Tracked(ranker) && Start(config, ranker, data, n).Ok?
    ensures Steps(Start(config, ranker, data, n).value, events) <= 4 * |Closure(config.root, config.policy)| + 2 * n
  {
    var c := Start(config, ranker, data, n).value;
    StartInv(config, ranker, data, n);
    StartBudget(config, ranker, data, n);
    StepsFitBudget(c, events, n);
  }

  lemma {:induction false} PoolWeights(n: nat, m: nat)
    requires m <= n
    ensures Weights(NewPool(n), m) == 2 * m
  {
    if m > 0 { PoolWeights(n, m - 1); }
  }

  lemma PreparedBudget(config: Config, scheduler: RankScheduler, n: nat)
    requires n > 0 && scheduler.Inv() && scheduler.tasks.Keys == {ROOT} && scheduler.tasks[ROOT].data == ROOT_TASK
    ensures var c := Prepared(config, scheduler, n).DispatchAndFinish();
            WorkersBelow(c, n) && Budget(c, n) <= 4 * |Closure(config.root, config.policy)| + 2 * n
  {
    PreparedInv(config, scheduler, n);
    NewBudget(config, scheduler, n);
    DispatchAndFinishSpends(Prepared(config, scheduler, n), n);
    FinishKeepsWorkers(Prepared(config, scheduler, n), n);
  }

  lemma NewBudget(config: Config, scheduler: RankScheduler, n: nat)
    ensures var c := Prepared(config, scheduler, n);
            WorkersBelow(c, n) && Budget(c, n) == 4 * |Closure(config.root, config.policy)| + 2 * n
  {
    PoolWeights(n, n);
  }

  lemma FinishKeepsWorkers(c: Coordinator, n: nat)
    ensures c.DispatchAndFinish().workers.Keys == c.workers.Keys
    ensures WorkersBelow(c, n) ==> WorkersBelow(c.DispatchAndFinish(), n)
  {
    DispatchWorkers(c);
    SameWorkersBelow(c, c.DispatchAndFinish(), n);
  }

  lemma SameWorkersBelow(c: Coordinator, after: Coordinator, n: nat)
    requires after.workers.Keys == c.workers.Keys
    ensures WorkersBelow(c, n) ==> WorkersBelow(after, n)
  {
    assert forall w :: w in after.workers ==> w in c.workers.Keys;
  }

  lemma StartBudget(config: Config, ranker: Ranker, data: map<Term, Term>, n: nat)
    requires n > 0 && Schedulers.Tracked(ranker) && Start(config, ranker, data, n).Ok?
    ensures var c := Start(config, ranker, data, n).value;
            WorkersBelow(c, n) && Budget(c, n) <= 4 * |Closure(config.root, config.policy)| + 2 * n
  {
    var empty := Schedulers.Scheduler<nat, Task, Term, Term>.New(ranker, data);
    empty.NewInv();
    var evaluation := ranker(ROOT_TASK, data);
    empty.PutEvaluatedTaskInv(ROOT, ROOT_TASK, evaluation.rank, evaluation.keys);
    PreparedBudget(config, empty.PutTask(ROOT, ROOT_TASK).value, n);
  }

  /** Some step of a worker or of the coordinator. */
  ghost predicate OwnSteps(events: seq<Event>) {
    forall i :: 0 <= i < |events| ==> !events[i].Dies? && !events[i].ChangesRanks?
  }

  ghost predicate Finishes(c: Coordinator, events: seq<Event>) {
    OwnSteps(events) && Run(c, events).mode.Finished?
  }

  lemma OwnStep(c: Coordinator) returns (event: Event)
    requires c.Inv() && !c.mode.Finished?
    ensures Enabled(c, event) && !event.Dies? && !event.ChangesRanks?
    ensures (event.Runs? || event.Delivers?) ==> event.memory
  {
    NeverStuck(c);
    var w :| c.CanRun(w) || c.CanSend(w) || c.CanStop(w) || c.CanDeliver(w);
    event := if c.CanRun(w) then Runs(w, true) else if c.CanSend(w) then Sends(w)
             else if c.CanStop(w) then Stops(w) else Delivers(w, true);
  }

  /** And every reachable state can be brought to its end by workers and coordinator alone. */
  lemma {:induction false} EveryStateCanFinish(c: Coordinator, n: nat)
    requires c.Inv() && WorkersBelow(c, n)
    ensures exists events :: Finishes(c, events)
    decreases Budget(c, n)
  {
    BudgetIsNat(c, n);
    if c.mode.Finished? {
      assert Finishes(c, []);
    } else {
      var event := OwnStep(c);
      var next := Next(c, event);
      NextSpends(c, event, n);
      NextInv(c, event);
      NextKeepsWorkers(c, event);
      SameWorkersBelow(c, next, n);
      BudgetIsNat(next, n);
      EveryStateCanFinish(next, n);
      var rest :| Finishes(next, rest);
      OneMoreStep(c, event, rest);
    }
  }

  lemma OneMoreStep(c: Coordinator, event: Event, rest: seq<Event>)
    requires Finishes(Next(c, event), rest) && !event.Dies? && !event.ChangesRanks?
    ensures Finishes(c, [event] + rest)
  {
    assert ([event] + rest)[1..] == rest;
  }
}
