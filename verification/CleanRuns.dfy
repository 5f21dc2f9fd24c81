/** Runs without a fatal error or a worker's death: they can only end with the whole closure. */
module CleanRuns {
  import opened Coordinators
  import opened CoordinatorRuns
  import opened CoordinatorSteps
  import opened Options
  import opened Scan
  import opened StoreModel
  import opened Terms
  import opened Terminations
  import Reports
  import Schedulers

  // -- What a clean run is ----------------------------------------------------------------------------

  /** No directory of the closure fails for a fatal reason, and there are no more of them than IDs. */
  ghost predicate IsBenign(config: Config) {
    && |Closure(config.root, config.policy)| <= UINT32_MAX
    && forall path :: Reachable(config.root, config.policy, path) ==> FailsGently(config, path)
  }

  ghost predicate FailsGently(config: Config, path: Path) {
    var directory := At(config.root, path);
    directory.Some? && directory.value.Unreadable? ==> config.classify(directory.value.reason).Recoverable?
  }

  type RankData = map<Term, Term>

  /** Every task can be ranked on the data. */
  ghost predicate CanRank(ranker: Ranker, data: RankData) {
    forall task :: ranker(task, data).Ranked?
  }

  ghost predicate NeverRaises(ranker: Ranker, safe: RankData -> bool) {
    forall data :: safe(data) ==> CanRank(ranker, data)
  }

  /** A rank change that leads from safe data to safe data. */
  ghost predicate KeepsSafe(values: RankData, safe: RankData -> bool) {
    forall data :: safe(data) ==> safe(data + values)
  }

  /** No worker dies, every allocation succeeds, and rank data stays safe. */
  ghost predicate IsClean(event: Event, safe: RankData -> bool) {
    match event
    case Dies(_) => false
    case Runs(_, memory) => memory
    case Delivers(_, memory) => memory
    case ChangesRanks(values) => KeepsSafe(values, safe)
    case _ => true
  }

  ghost predicate AllClean(events: seq<Event>, safe: RankData -> bool) {
    forall i :: 0 <= i < |events| ==> IsClean(events[i], safe)
  }

  predicate IsFine(message: Message) {
    message.Reported? && !message.result.StoreError?
  }

  /** An alive worker with nothing but fine results. */
  ghost predicate Healthy(worker: Worker) {
    && worker.alive
    && (worker.ran.Some? ==> IsFine(worker.ran.value))
    && (forall i :: 0 <= i < |worker.mail| ==> IsFine(worker.mail[i]))
  }

  ghost predicate AllHealthy(workers: map<nat, Worker>) {
    forall w :: w in workers ==> Healthy(workers[w])
  }

  /** On the way to success, or there. */
  ghost predicate OnTrack(c: Coordinator, safe: RankData -> bool) {
    && c.Inv() && IsBenign(c.config)
    && match c.mode
       case Running =>
         NeverRaises(c.scheduler.ranker, safe) && safe(c.scheduler.data) && AllHealthy(c.workers)
       case Stopping(ending) => ending == Completed
       case Finished(ending) => ending == Completed
  }

  // -- IDs never run out ------------------------------------------------------------------------------

  ghost function ChildPaths(path: Path, rows: seq<nat>, n: nat): set<Path>
    requires n <= |rows|
  {
    if n == 0 then {} else ChildPaths(path, rows, n - 1) + {path + [rows[n - 1]]}
  }

  lemma {:induction false} ChildPathsAre(path: Path, rows: seq<nat>, n: nat, child: Path)
    requires n <= |rows| && child in ChildPaths(path, rows, n)
    ensures |child| == |path| + 1 && child[..|path|] == path && child[|path|] in rows[..n]
  {
    if child in ChildPaths(path, rows, n - 1) { ChildPathsAre(path, rows, n - 1, child); }
  }

  lemma {:induction false} ChildPathsAreApart(path: Path, rows: seq<nat>, n: nat)
    requires n <= |rows| && forall i, j :: 0 <= i < j < |rows| ==> rows[i] != rows[j]
    ensures |ChildPaths(path, rows, n)| == n
  {
    if n > 0 {
      ChildPathsAreApart(path, rows, n - 1);
      var child := path + [rows[n - 1]];
      assert child[|path|] == rows[n - 1] && rows[n - 1] !in rows[..n - 1];
      if child in ChildPaths(path, rows, n - 1) { ChildPathsAre(path, rows, n - 1, child); }
    }
  }

  /** The children of a pending directory are not in the store yet. */
  lemma ChildIsNew(c: Coordinator, id: nat, other: nat, child: Path)
    requires c.StoreOk() && c.IsPending(id) && other < |c.store.records| && child == c.store.Path(other)
    requires |child| == |c.store.Path(id)| + 1
    ensures child[..|child| - 1] != c.store.Path(id)
  {
    assert c.store.ValidRecord(id) && c.store.Linked(other);
    if child[..|child| - 1] == c.store.Path(id) { c.store.PathIsInjective(c.store.records[other].parent, id); }
  }

  /** The path of a child to be: in the closure, and not of a directory that the store has. */
  lemma NewChildPath(c: Coordinator, id: nat, entries: seq<Entry>, child: Path)
    requires c.StoreOk() && c.IsPending(id) && At(c.config.root, c.store.Path(id)) == Some(Listing(entries))
    requires var rows := CountRows(Rows(entries), c.config.policy).children; child in ChildPaths(c.store.Path(id), rows, |rows|)
    ensures child in Closure(c.config.root, c.config.policy) && child !in PathsBelow(c.store, |c.store.records|)
  {
    var path, n := c.store.Path(id), |c.store.records|;
    var rows := CountRows(Rows(entries), c.config.policy).children;
    ChildPathsAre(path, rows, |rows|, child);
    var row := child[|path|];
    assert child == path + [row] && row in rows && c.MatchesOracle(id);
    ChildrenAreTraversableRows(Rows(entries), c.config.policy);
    ExtendPath(c.config.root, c.config.policy, path, row);
    assert IsChildRow(Rows(entries), c.config.policy, row);
    ReachableIsInClosure(c.config.root, c.config.policy, child);
    assert child[..|child| - 1] == path;
    if child in PathsBelow(c.store, n) {
      PathBelow(c.store, n, child);
      var other :| 0 <= other < n && c.store.HasPath(other, child);
      ChildIsNew(c, id, other, child);
    }
  }

  lemma RoomForChildren(c: Coordinator, id: nat, entries: seq<Entry>)
    requires c.StoreOk() && c.IsPending(id) && At(c.config.root, c.store.Path(id)) == Some(Listing(entries))
    ensures var rows := CountRows(Rows(entries), c.config.policy).children;
            |c.store.records| + |rows| <= |Closure(c.config.root, c.config.policy)|
  {
    var path, n, closure := c.store.Path(id), |c.store.records|, Closure(c.config.root, c.config.policy);
    var rows := CountRows(Rows(entries), c.config.policy).children;
    var known, new_ := PathsBelow(c.store, n), ChildPaths(path, rows, |rows|);
    ChildRowsAreValid(Rows(entries), c.config.policy);
    PathsAreApart(c.store, n);
    ChildPathsAreApart(path, rows, |rows|);
    forall child | child in new_ ensures child in closure && child !in known { NewChildPath(c, id, entries, child); }
    forall child | child in known ensures child in closure { KnownIsInClosure(c, child); }
    SubsetIsSmaller(known + new_, closure);
    assert |known + new_| == |known| + |new_|;
  }

  lemma KnownIsInClosure(c: Coordinator, path: Path)
    requires c.StoreOk() && path in PathsBelow(c.store, |c.store.records|)
    ensures path in Closure(c.config.root, c.config.policy)
  {
    PathBelow(c.store, |c.store.records|, path);
    var id :| 0 <= id < |c.store.records| && c.store.HasPath(id, path);
    assert c.MatchesOracle(id);
    ReachableIsInClosure(c.config.root, c.config.policy, path);
  }

  // -- No step goes wrong -----------------------------------------------------------------------------

  lemma ScanIsFine(c: Coordinator, task: Task)
    requires c.StoreOk() && IsBenign(c.config) && c.TaskOk(task) && c.IsPending(task.id)
    ensures !c.ScanAndPublish(task, true).0.StoreError?
  {
    assert c.MatchesOracle(task.id);
    match At(c.config.root, task.path)
    case Some(Listing(entries)) => RoomForChildren(c, task.id, entries);
    case _ =>
  }

  lemma RunsStaysOnTrack(c: Coordinator, w: nat, safe: RankData -> bool)
    requires OnTrack(c, safe) && c.CanRun(w)
    ensures OnTrack(c.WorkerRuns(w, true), safe)
  {
    c.WorkerRunsInv(w, true);
    assert c.WorkerOk(w);
    if c.mode.Running? {
      ScanIsFine(c, c.workers[w].inbox[0]);
      assert Healthy(c.workers[w]);
    }
  }

  lemma SendsStaysOnTrack(c: Coordinator, w: nat, safe: RankData -> bool)
    requires OnTrack(c, safe) && c.CanSend(w)
    ensures OnTrack(c.WorkerSends(w), safe)
  {
    c.WorkerSendsInv(w);
    if c.mode.Running? { assert Healthy(c.workers[w]); }
  }

  lemma {:induction false} DispatchStaysHealthy(c: Coordinator)
    requires AllHealthy(c.workers)
    ensures AllHealthy(c.Dispatch().workers)
    decreases |c.idle|
  {
    if c.idle != [] && c.scheduler.Pop().Some? && c.idle[0] in c.workers {
      var after := AssignFirst(c);
      forall w | w in after.workers ensures Healthy(after.workers[w]) { assert Healthy(c.workers[w]); }
      DispatchStaysHealthy(after);
    }
  }

  lemma {:induction false} DispatchKeepsRanker(c: Coordinator)
    ensures c.Dispatch().scheduler.ranker == c.scheduler.ranker && c.Dispatch().scheduler.data == c.scheduler.data
    ensures c.Dispatch().mode == c.mode
    decreases |c.idle|
  {
    if c.idle != [] && c.scheduler.Pop().Some? && c.idle[0] in c.workers { DispatchKeepsRanker(AssignFirst(c)); }
  }

  lemma FinishStaysOnTrack(c: Coordinator, safe: RankData -> bool)
    requires c.mode.Running? && IsBenign(c.config) && AllHealthy(c.workers)
    requires NeverRaises(c.scheduler.ranker, safe) && safe(c.scheduler.data)
    requires c.DispatchAndFinish().Inv()
    ensures OnTrack(c.DispatchAndFinish(), safe)
  {
    DispatchConfig(c);
    DispatchStaysHealthy(c);
    DispatchKeepsRanker(c);
  }

  /** A result has been handled without stopping the run; ranker, rank data and workers are as before. */
  ghost predicate KeepsGoing(c: Coordinator, handled: Coordinator) {
    && handled.mode.Running? && handled.workers == c.workers
    && handled.scheduler.ranker == c.scheduler.ranker && handled.scheduler.data == c.scheduler.data
  }

  lemma ChildrenAreRanked(c: Coordinator, task: Task, children: seq<Task>, tally: Tally)
    requires c.mode.Running? && c.scheduler.Inv() && CanRank(c.scheduler.ranker, c.scheduler.data)
    ensures KeepsGoing(c, c.HandleResult(task, Scanned(children, tally), true))
  {
    c.scheduler.PutEvaluatedTasksInv(Coordinator.Pairs(children));
  }

  lemma ErrorIsRecorded(c: Coordinator, task: Task, reason: nat)
    requires c.mode.Running? && c.IsPending(task.id) && c.config.classify(reason).Recoverable?
    ensures KeepsGoing(c, c.HandleResult(task, DirectoryError(reason), true))
  {
  }

  /** A fine result neither aborts the run nor harms the pool. */
  lemma FineIsHandled(c: Coordinator, w: nat, safe: RankData -> bool)
    requires OnTrack(c, safe) && c.mode.Running? && HasResult(c, w) && w in c.inFlight
    ensures var handled := Handled(c, w, true);
            KeepsGoing(Freed(c, w), handled) && handled.workers == c.Received(w).workers
  {
    assert Healthy(c.workers[w]) && IsFine(c.workers[w].mail[0]);
    c.MailShape(w);
    match c.workers[w].mail[0].result
    case Scanned(children, tally) => ChildrenAreRanked(Freed(c, w), c.inFlight[w], children, tally);
    case DirectoryError(reason) =>
      assert c.MatchesOracle(c.inFlight[w].id) && FailsGently(c.config, c.inFlight[w].path);
      ErrorIsRecorded(Freed(c, w), c.inFlight[w], reason);
  }

  lemma HandledStaysHealthy(c: Coordinator, handled: Coordinator, w: nat)
    requires AllHealthy(c.workers) && c.CanDeliver(w) && handled.workers == c.Received(w).workers
    ensures AllHealthy(handled.workers)
  {
    forall v | v in handled.workers ensures Healthy(handled.workers[v]) { assert Healthy(c.workers[v]); }
  }

  lemma ResultStaysOnTrack(c: Coordinator, w: nat, safe: RankData -> bool)
    requires OnTrack(c, safe) && c.mode.Running? && HasResult(c, w) && w in c.inFlight
    requires Handled(c, w, true).DispatchAndFinish().Inv()
    ensures OnTrack(Handled(c, w, true).DispatchAndFinish(), safe)
  {
    FineIsHandled(c, w, safe);
    HandledStaysHealthy(c, Handled(c, w, true), w);
    FinishStaysOnTrack(Handled(c, w, true), safe);
  }

  lemma OnlyFineIsDelivered(c: Coordinator, w: nat, safe: RankData -> bool)
    requires OnTrack(c, safe) && c.mode.Running? && c.CanDeliver(w)
    ensures HasResult(c, w)
  {
    assert Healthy(c.workers[w]) && IsFine(c.workers[w].mail[0]);
  }

  /** A run that is stopping for success never turns to an abort. */
  lemma EndStaysOnTrack(c: Coordinator, w: nat)
    requires !c.mode.Running? && c.mode.ending == Completed && c.CanDeliver(w)
    ensures var after := c.Deliver(w, true); !after.mode.Running? && after.mode.ending == Completed
  {
  }

  lemma DeliverStaysOnTrack(c: Coordinator, w: nat, safe: RankData -> bool)
    requires OnTrack(c, safe) && c.CanDeliver(w)
    ensures OnTrack(c.Deliver(w, true), safe)
  {
    DeliverInv(c, w, true);
    DeliverConfig(c, w, true);
    if c.mode.Running? {
      OnlyFineIsDelivered(c, w, safe);
      DeliveredResult(c, w, true);
      ResultStaysOnTrack(c, w, safe);
    } else {
      EndStaysOnTrack(c, w);
    }
  }

  lemma RanksStayOnTrack(c: Coordinator, values: map<Term, Term>, safe: RankData -> bool)
    requires OnTrack(c, safe) && KeepsSafe(values, safe)
    ensures OnTrack(c.PutRankData(values), safe)
  {
    PutRankDataInv(c, values);
    if c.mode.Running? {
      c.scheduler.PutDataRecomputes(values);
      match c.scheduler.PutData(values)
      case Ok(next) => FinishStaysOnTrack(c.(scheduler := next), safe);
      case RankError =>
    }
  }

  lemma NextStaysOnTrack(c: Coordinator, event: Event, safe: RankData -> bool)
    requires OnTrack(c, safe) && IsClean(event, safe)
    ensures OnTrack(Next(c, event), safe)
  {
    if Enabled(c, event) {
      match event
      case Runs(w, _) => RunsStaysOnTrack(c, w, safe);
      case Sends(w) => SendsStaysOnTrack(c, w, safe);
      case Stops(w) => c.WorkerStopsInv(w);
      case Delivers(w, _) => DeliverStaysOnTrack(c, w, safe);
      case ChangesRanks(values) => RanksStayOnTrack(c, values, safe);
    }
  }

  lemma {:induction false} RunStaysOnTrack(c: Coordinator, events: seq<Event>, safe: RankData -> bool)
    requires OnTrack(c, safe) && AllClean(events, safe)
    ensures OnTrack(Run(c, events), safe)
    decreases |events|
  {
    if events != [] {
      NextStaysOnTrack(c, events[0], safe);
      RunStaysOnTrack(Next(c, events[0]), events[1..], safe);
    }
  }

  lemma StartIsOnTrack(config: Config, ranker: Ranker, data: RankData, n: nat, safe: RankData -> bool)
    requires n > 0 && Schedulers.Tracked(ranker) && NeverRaises(ranker, safe) && safe(data) && IsBenign(config)
    ensures Start(config, ranker, data, n).Ok? && OnTrack(Start(config, ranker, data, n).value, safe)
  {
    var empty := Schedulers.Scheduler<nat, Task, Term, Term>.New(ranker, data);
    var put := empty.PutTask(ROOT, ROOT_TASK);
    assert CanRank(ranker, data) && ranker(ROOT_TASK, data).Ranked?;
    empty.NewInv();
    var evaluation := ranker(ROOT_TASK, data);
    empty.PutEvaluatedTaskInv(ROOT, ROOT_TASK, evaluation.rank, evaluation.keys);
    StartInv(config, ranker, data, n);
    FinishStaysOnTrack(Prepared(config, put.value, n), safe);
  }

  /** The state of a run is finished with the closure, or can go on by itself. */
  ghost predicate EndsWell(config: Config, c: Coordinator) {
    if c.mode.Finished? then
      && c.mode == Finished(Completed)
      && forall outcome :: Reports.Contains(c, outcome) <==> Reports.InClosure(config, outcome)
    else exists event :: CanGoOn(c, event)
  }

  /** A clean step of a worker or of the coordinator is possible. */
  ghost predicate CanGoOn(c: Coordinator, event: Event) {
    Enabled(c, event) && !event.Dies? && !event.ChangesRanks? && (event.Runs? || event.Delivers? ==> event.memory)
  }

  /**
   * Without fatal errors, failed allocations and deaths, and while rank data stays among data that the ranker can rank:
   * whatever the ranks, their changes, the number of workers and the interleaving, a run is never stuck, takes a bounded
   * number of steps, never aborts, and when it finishes it holds the reachable closure and nothing else.
   */
  lemma CleanRunsEndWithTheClosure(
    config: Config, ranker: Ranker, data: RankData, n: nat, events: seq<Event>, safe: RankData -> bool
  )
    requires n > 0 && Schedulers.Tracked(ranker) && IsBenign(config) && AllClean(events, safe)
    requires NeverRaises(ranker, safe) && safe(data)
    ensures Start(config, ranker, data, n).Ok?
    ensures var first := Start(config, ranker, data, n).value;
            && Steps(first, events) <= 4 * |Closure(config.root, config.policy)| + 2 * n
            && EndsWell(config, Run(first, events))
  {
    StartIsOnTrack(config, ranker, data, n, safe);
    EveryRunIsBounded(config, ranker, data, n, events);
    var first := Start(config, ranker, data, n).value;
    RunStaysOnTrack(first, events, safe);
    var c := Run(first, events);
    Reports.StartConfig(config, ranker, data, n);
    ConfigIsFixed(first, events);
    if c.mode.Finished? {
      forall outcome ensures Reports.Contains(c, outcome) <==> Reports.InClosure(config, outcome) {
        Reports.SuccessIsTheClosure(c, outcome);
      }
    } else {
      var event := OwnStep(c);
      assert CanGoOn(c, event);
    }
  }

  ghost predicate HasKeys(keys: set<Term>, data: RankData) {
    keys <= data.Keys
  }

  /** No worker dies and every allocation succeeds; ranks change in any way. */
  ghost predicate IsUndisturbed(events: seq<Event>) {
    forall i :: 0 <= i < |events| ==> !events[i].Dies? && (events[i].Runs? || events[i].Delivers? ==> events[i].memory)
  }

  /** In particular a ranker may require the keys it was started with: a rank change only adds keys. */
  lemma RequiredKeysAreNeverMissing(config: Config, ranker: Ranker, data: RankData, n: nat, events: seq<Event>)
    requires n > 0 && Schedulers.Tracked(ranker) && IsBenign(config) && IsUndisturbed(events)
    requires forall later: RankData :: HasKeys(data.Keys, later) ==> CanRank(ranker, later)
    ensures Start(config, ranker, data, n).Ok?
    ensures EndsWell(config, Run(Start(config, ranker, data, n).value, events))
  {
    var safe := (later: RankData) => HasKeys(data.Keys, later);
    forall i | 0 <= i < |events| ensures IsClean(events[i], safe) {
      if events[i].ChangesRanks? { assert KeepsSafe(events[i].values, safe); }
    }
    CleanRunsEndWithTheClosure(config, ranker, data, n, events, safe);
  }
}
