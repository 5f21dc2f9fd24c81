/** One coordinator, its workers and the native store, over a fixed finite filesystem. */
module Coordinators {
  import opened Counts
  import opened Options
  import opened Scan
  import opened StoreModel
  import opened Terms
  import Schedulers

  // -- The filesystem ---------------------------------------------------------------------------

  /** What a scan of a directory meets: its rows, each with the directory below it, or an error. */
  datatype Directory = Listing(entries: seq<Entry>) | Unreadable(reason: nat)
  datatype Entry = Entry(row: Row, below: Directory)

  function Rows(entries: seq<Entry>): (rows: seq<Row>)
    ensures |rows| == |entries| && forall i :: 0 <= i < |rows| ==> rows[i] == entries[i].row
  {
    seq(|entries|, i requires 0 <= i < |entries| => entries[i].row)
  }

  type Path = seq<nat>

  /** The directory at a path of row numbers. */
  function At(directory: Directory, path: Path): Option<Directory> {
    if path == [] then Some(directory)
    else if directory.Unreadable? || path[0] >= |directory.entries| then None
    else At(directory.entries[path[0]].below, path[1..])
  }

  /** Every directory on the way is a traversable row of the one before: the closure under the mount policy. */
  predicate Reachable(directory: Directory, policy: MountPolicy, path: Path) {
    path == []
    || (directory.Listing? && IsChildRow(Rows(directory.entries), policy, path[0])
        && Reachable(directory.entries[path[0]].below, policy, path[1..]))
  }

  lemma {:induction false} ExtendPath(directory: Directory, policy: MountPolicy, path: Path, row: nat)
    requires Reachable(directory, policy, path)
    ensures At(directory, path).Some?
    ensures var here := At(directory, path).value;
            && (Reachable(directory, policy, path + [row])
                <==> here.Listing? && IsChildRow(Rows(here.entries), policy, row))
    decreases |path|
  {
    if path == [] {
      assert path + [row] == [row] && [row][1..] == [];
    } else {
      assert (path + [row])[1..] == path[1..] + [row];
      ExtendPath(directory.entries[path[0]].below, policy, path[1..], row);
    }
  }

  lemma {:induction false} ParentIsReachable(directory: Directory, policy: MountPolicy, path: Path)
    requires path != [] && Reachable(directory, policy, path)
    ensures Reachable(directory, policy, path[..|path| - 1])
    decreases |path|
  {
    if |path| > 1 {
      ParentIsReachable(directory.entries[path[0]].below, policy, path[1..]);
      assert path[..|path| - 1][1..] == path[1..][..|path| - 2];
    }
  }

  // -- Tasks, results and messages --------------------------------------------------------------

  datatype Task = Task(id: nat, path: Path)

  datatype WorkerResult =
    | Scanned(children: seq<Task>, tally: Tally)
    | DirectoryError(reason: nat)
    | StoreError

  datatype Message = Reported(id: nat, result: WorkerResult) | Down

  /** A worker process: scan requests not yet taken, the call it has finished but not sent, and its life. */
  datatype Worker = Worker(inbox: seq<Task>, ran: Option<Message>, alive: bool, mail: seq<Message>)

  datatype Classification = Recoverable(category: nat) | Fatal

  datatype Counters = Counters(
    entries: nat, directories: nat, regularFiles: nat, symlinks: nat, other: nat,
    metadataErrors: nat, errorCounts: Counts<nat>, skippedMounts: nat,
    failureCategories: Counts<nat>, failureReasons: Counts<nat>)

  const ZERO: Counters := Counters(0, 0, 0, 0, 0, 0, map[], 0, map[], map[])

  function MergeCounters(c: Counters, t: Tally): Counters {
    c.(entries := c.entries + t.entries, directories := c.directories + t.directories,
       regularFiles := c.regularFiles + t.regularFiles, symlinks := c.symlinks + t.symlinks,
       other := c.other + t.other, metadataErrors := c.metadataErrors + t.metadataErrors,
       errorCounts := Merge(c.errorCounts, t.errorCounts), skippedMounts := c.skippedMounts + t.skippedMounts)
  }

  function RecordFailure(c: Counters, reason: nat, category: nat): Counters {
    c.(failureCategories := Increment(c.failureCategories, category),
       failureReasons := Increment(c.failureReasons, reason))
  }

  datatype Totals = Totals(entries: nat, directories: nat, regularFiles: nat, symlinks: nat, other: nat,
                           metadataErrors: nat, skippedMounts: nat)

  const NO_TOTALS: Totals := Totals(0, 0, 0, 0, 0, 0, 0)

  function AddTotals(a: Totals, t: Tally): Totals {
    Totals(a.entries + t.entries, a.directories + t.directories, a.regularFiles + t.regularFiles,
           a.symlinks + t.symlinks, a.other + t.other, a.metadataErrors + t.metadataErrors,
           a.skippedMounts + t.skippedMounts)
  }

  datatype Ending = Completed | Aborted

  /** While stopping, the coordinator waits for every worker it still monitors to go down. */
  datatype Mode = Running | Stopping(ending: Ending) | Finished(ending: Ending)

  type RankScheduler = Schedulers.Scheduler<nat, Task, Term, Term>

  datatype Config = Config(root: Directory, policy: MountPolicy, classify: nat -> Classification)

  /**
    `lost` is a history variable that no step reads: the directories whose worker died after publishing
    them and before reporting.
   */
  datatype Coordinator = Coordinator(
    config: Config,
    store: Store<seq<Entry>>,
    scheduler: RankScheduler,
    workers: map<nat, Worker>,
    monitored: set<nat>,
    idle: seq<nat>,
    inFlight: map<nat, Task>,
    counters: Counters,
    mode: Mode,
    merged: set<nat>,
    lost: set<nat>)
  {
    // -- Workers ------------------------------------------------------------------------------

    function ChildTasks(task: Task, first: nat, rows: seq<nat>): (tasks: seq<Task>)
      ensures |tasks| == |rows|
      ensures forall i :: 0 <= i < |tasks| ==> tasks[i] == Task(first + i, task.path + [rows[i]])
    {
      seq(|rows|, i requires 0 <= i < |rows| => Task(first + i, task.path + [rows[i]]))
    }

    /** One scan-and-publish call: an uninterrupted scan, then one atomic store step. */
    function ScanAndPublish(task: Task, memory: bool): (WorkerResult, Store<seq<Entry>>) {
      match At(config.root, task.path)
      case None => (StoreError, store)
      case Some(Unreadable(reason)) => (DirectoryError(reason), store)
      case Some(Listing(entries)) =>
        var tally := CountRows(Rows(entries), config.policy);
        if store.PublishStatus(task.id, |tally.children|, memory) == Done then
          (Scanned(ChildTasks(task, |store.records|, tally.children), tally),
           store.Publish(task.id, entries, |entries|, tally.children, memory))
        else (StoreError, store)
    }

    /** The worker takes its next request and makes the native call. */
    predicate CanRun(w: nat) {
      w in workers && workers[w].alive && workers[w].inbox != [] && workers[w].ran.None?
    }

    function WorkerRuns(w: nat, memory: bool): Coordinator
      requires CanRun(w)
    {
      var worker := workers[w];
      var (result, newStore) := ScanAndPublish(worker.inbox[0], memory);
      this.(store := newStore,
            workers := workers[w := worker.(inbox := worker.inbox[1..],
                                            ran := Some(Reported(worker.inbox[0].id, result)))])
    }

    predicate CanSend(w: nat) {
      w in workers && workers[w].alive && workers[w].ran.Some?
    }

    function WorkerSends(w: nat): Coordinator
      requires CanSend(w)
    {
      var worker := workers[w];
      this.(workers := workers[w := worker.(ran := None, mail := worker.mail + [worker.ran.value])])
    }

    predicate CanDie(w: nat) {
      w in workers && workers[w].alive
    }

    static function Unsent(worker: Worker): set<nat> {
      if worker.ran.Some? && worker.ran.value.Reported? && worker.ran.value.result.Scanned?
      then {worker.ran.value.id} else {}
    }

    /** A crash at any point outside the native call; the monitor message follows what was sent before. */
    function WorkerDies(w: nat): Coordinator
      requires CanDie(w)
    {
      var worker := workers[w];
      this.(workers := workers[w := worker.(alive := false, ran := None, inbox := [], mail := worker.mail + [Down])],
            lost := lost + Unsent(worker))
    }

    /** The stop message is behind every scan request, so a worker stops once its inbox is empty. */
    predicate CanStop(w: nat) {
      mode.Stopping? && w in workers && workers[w].alive && workers[w].inbox == [] && workers[w].ran.None?
    }

    function WorkerStops(w: nat): Coordinator
      requires CanStop(w)
    {
      var worker := workers[w];
      this.(workers := workers[w := worker.(alive := false, mail := worker.mail + [Down])])
    }

    // -- Coordinator --------------------------------------------------------------------------

    /** A scan request to a dead process is dropped. */
    function Assign(w: nat, task: Task): Coordinator
      requires w in workers
    {
      this.(inFlight := inFlight[w := task],
            workers := if workers[w].alive
                       then workers[w := workers[w].(inbox := workers[w].inbox + [task])] else workers)
    }

    /** Fills idle workers with the highest-ranked tasks, then finishes if nothing is pending or in flight. */
    function Dispatch(): Coordinator
      decreases |idle|
    {
      if idle == [] || scheduler.Pop().None? || idle[0] !in workers then this
      else
        var (popped, rest) := scheduler.Pop().value;
        this.(scheduler := rest, idle := idle[1..]).Assign(idle[0], popped.data).Dispatch()
    }

    function DispatchAndFinish(): Coordinator {
      if !mode.Running? then this
      else
        var s := Dispatch();
        if s.inFlight == map[] && s.scheduler.tasks == map[] then s.Stop(Completed) else s
    }

    /** Sends stop to every monitored worker; with none left the run ends at once. */
    function Stop(ending: Ending): Coordinator {
      if monitored == {} then this.(idle := [], inFlight := map[], mode := Finished(ending))
      else this.(idle := [], mode := Stopping(ending))
    }

    static function Pairs(children: seq<Task>): (pairs: seq<(nat, Task)>)
      ensures |pairs| == |children| && forall i :: 0 <= i < |pairs| ==> pairs[i] == (children[i].id, children[i])
    {
      seq(|children|, i requires 0 <= i < |children| => (children[i].id, children[i]))
    }

    function HandleResult(task: Task, result: WorkerResult, memory: bool): Coordinator {
      match result
      case Scanned(children, tally) =>
        var s := this.(counters := MergeCounters(counters, tally), merged := merged + {task.id});
        (match scheduler.PutTasks(Pairs(children))
         case Ok(next) => s.(scheduler := next)
         case RankError => s.Stop(Aborted))
      case DirectoryError(reason) =>
        (match config.classify(reason)
         case Fatal => Stop(Aborted)
         case Recoverable(category) =>
           if store.FailStatus(task.id, memory) == Done
           then this.(store := store.Fail(task.id, reason, memory),
                      counters := RecordFailure(counters, reason, category))
           else Stop(Aborted))
      case StoreError => Stop(Aborted)
    }

    /** During shutdown results are only counted; nothing is scheduled any more. */
    function SettleResult(task: Task, result: WorkerResult, memory: bool): Coordinator {
      match result
      case Scanned(children, tally) =>
        this.(counters := MergeCounters(counters, tally), merged := merged + {task.id})
      case DirectoryError(reason) =>
        (match config.classify(reason)
         case Fatal => this
         case Recoverable(category) =>
           if store.FailStatus(task.id, memory) == Done
           then this.(store := store.Fail(task.id, reason, memory),
                      counters := RecordFailure(counters, reason, category))
           else this)
      case StoreError => this
    }

    predicate CanDeliver(w: nat) {
      w in workers && workers[w].mail != []
    }

    function Received(w: nat): Coordinator
      requires CanDeliver(w)
    {
      this.(workers := workers[w := workers[w].(mail := workers[w].mail[1..])])
    }

    /** The coordinator receives the oldest message of one worker. */
    function Deliver(w: nat, memory: bool): Coordinator
      requires CanDeliver(w)
    {
      var message := workers[w].mail[0];
      var s := Received(w);
      match mode
      case Finished(_) => s
      case Running =>
        (match message
         case Reported(id, result) =>
           if w !in inFlight then s
           else
             var freed := s.(inFlight := inFlight - {w}, idle := [w] + idle);
             if inFlight[w].id == id
             then freed.HandleResult(inFlight[w], result, memory).DispatchAndFinish()
             else freed.Stop(Aborted)
         case Down =>
           if w !in monitored then s
           else s.(monitored := monitored - {w}, idle := Without(idle, w), inFlight := inFlight - {w})
                 .Stop(Aborted))
      case Stopping(ending) =>
        (match message
         case Reported(id, result) =>
           if w in inFlight && inFlight[w].id == id
           then s.(inFlight := inFlight - {w}).SettleResult(inFlight[w], result, memory)
           else s
         case Down =>
           var remaining := monitored - {w};
           if remaining == {} then s.(monitored := {}, inFlight := map[], mode := Finished(ending))
           else s.(monitored := remaining))
    }

    static function Without(workers: seq<nat>, w: nat): seq<nat> {
      if workers == [] then []
      else if workers[0] == w then workers[1..]
      else [workers[0]] + Without(workers[1..], w)
    }

    /** A live change of rank data; a ranking error leaves everything as it was. */
    ghost function PutRankData(values: map<Term, Term>): Coordinator {
      if !mode.Running? then this
      else match scheduler.PutData(values)
        case Ok(next) => this.(scheduler := next).DispatchAndFinish()
        case RankError => this
    }

    // -- Invariant ----------------------------------------------------------------------------

    /** A directory's stored state is what the oracle says of its path, and its path is in the closure. */
    ghost predicate MatchesOracle(id: nat)
      requires store.TreeShape() && id < |store.records|
    {
      var record, path := store.records[id], store.Path(id);
      && Reachable(config.root, config.policy, path)
      && At(config.root, path).Some?
      && (record.stored.Some? ==>
            var stored := record.stored.value;
            && At(config.root, path).value == Listing(stored.block)
            && stored.count == |stored.block|
            && stored.childRows == CountRows(Rows(stored.block), config.policy).children)
      && (record.state == State.Failed ==> At(config.root, path).value == Unreadable(record.errno))
    }

    ghost predicate StoreOk() {
      store.Inv() && forall id :: 0 <= id < |store.records| ==> MatchesOracle(id)
    }

    ghost predicate TaskOk(task: Task) {
      store.TreeShape() && task.id < |store.records| && task.path == store.Path(task.id)
    }

    predicate IsPending(id: nat) {
      id < |store.records| && store.records[id].state == Pending
    }

    predicate IsPublished(id: nat) {
      id < |store.records| && store.records[id].stored.Some?
    }

    /** A result that has not reached the counters yet, and what the store must say about it. */
    ghost predicate ResultOk(task: Task, message: Message) {
      && message.Reported? && message.id == task.id
      && match message.result
         case Scanned(children, tally) =>
           && IsPublished(task.id) && task.id !in merged && task.id !in lost
           && var stored := store.records[task.id].stored.value;
              && tally == CountRows(Rows(stored.block), config.policy)
              && children == ChildTasks(task, stored.firstChild, stored.childRows)
         case DirectoryError(reason) =>
           IsPending(task.id) && At(config.root, task.path) == Some(Unreadable(reason))
         case StoreError => IsPending(task.id)
    }

    /** A task in flight is in one place: the inbox, the finished call, or the mail; or its worker died with it. */
    ghost predicate HoldsTask(worker: Worker, task: Task, watched: bool) {
      if worker.alive && worker.inbox != [] then
        worker.inbox == [task] && worker.ran.None? && worker.mail == [] && IsPending(task.id)
      else if worker.alive && worker.ran.Some? then
        worker.mail == [] && ResultOk(task, worker.ran.value)
      else if worker.alive then
        |worker.mail| == 1 && ResultOk(task, worker.mail[0])
      else
        && worker.inbox == [] && worker.ran.None?
        && if |worker.mail| == 2 then ResultOk(task, worker.mail[0]) && worker.mail[1] == Down
           else worker.mail == (if watched then [Down] else []) && (IsPending(task.id) || task.id in lost)
    }

    ghost predicate HoldsNothing(worker: Worker, watched: bool) {
      && worker.inbox == [] && worker.ran.None?
      && worker.mail == if watched && !worker.alive then [Down] else []
    }

    ghost predicate WorkerOk(w: nat)
      requires w in workers
    {
      && (w !in monitored ==> !workers[w].alive && workers[w].mail == [])
      && (if w in inFlight then TaskOk(inFlight[w]) && HoldsTask(workers[w], inFlight[w], w in monitored)
          else HoldsNothing(workers[w], w in monitored))
    }

    ghost predicate FlightOk() {
      && inFlight.Keys <= workers.Keys
      && monitored <= workers.Keys
      && (forall w :: w in workers ==> WorkerOk(w))
      && (forall a, b :: a in inFlight && b in inFlight && a != b ==> inFlight[a].id != inFlight[b].id)
    }

    predicate InFlight(id: nat) {
      exists w :: w in inFlight && inFlight[w].id == id
    }

    predicate Accounted(id: nat) {
      id in merged || id in lost || InFlight(id)
    }

    /** Every published directory has been counted, was lost with its worker, or is still in flight. */
    ghost predicate PartitionOk() {
      && merged !! lost
      && (forall id :: id in merged || id in lost ==> IsPublished(id))
      && (forall id: nat {:trigger Accounted(id)} :: IsPublished(id) ==> Accounted(id))
    }

    ghost function TallyOf(id: nat): Tally {
      if IsPublished(id) then CountRows(Rows(store.records[id].stored.value.block), config.policy) else NOTHING
    }

    ghost function SumOver(ids: set<nat>, n: nat): Totals {
      if n == 0 then NO_TOTALS
      else if n - 1 in ids then AddTotals(SumOver(ids, n - 1), TallyOf(n - 1)) else SumOver(ids, n - 1)
    }

    /** The counters are the tallies of the directories merged so far, and every recorded failure is in the store. */
    ghost predicate CountersOk() {
      && SumOver(merged, |store.records|) == Totals(counters.entries, counters.directories, counters.regularFiles,
           counters.symlinks, counters.other, counters.metadataErrors, counters.skippedMounts)
      && Total(counters.errorCounts) == counters.metadataErrors
      && Total(counters.failureCategories) == store.failed
      && Total(counters.failureReasons) == store.failed
    }

    ghost predicate Core() {
      StoreOk() && FlightOk() && PartitionOk() && CountersOk()
    }

    /** Reserved by a published directory whose result the coordinator has not handled. */
    predicate Undelivered(id: nat) {
      0 < id < |store.records| && InFlight(store.records[id].parent)
    }

    /**
      Where a directory is: a pending one is queued, in flight, or reserved by an undelivered result, and in
      just one of these; a terminal one is in none, but for a published one whose result is on its way.
     */
    ghost predicate Located(id: nat)
      requires id < |store.records|
    {
      && (id in scheduler.tasks ==> IsPending(id) && !InFlight(id) && !Undelivered(id))
      && (InFlight(id) ==> !Undelivered(id) && store.records[id].state != State.Failed)
      && (Undelivered(id) ==> IsPending(id))
      && (IsPending(id) ==> id in scheduler.tasks || InFlight(id) || Undelivered(id))
    }

    ghost predicate LocationOk() {
      && (forall id :: id in scheduler.tasks ==> id < |store.records|)
      && (forall id :: 0 <= id < |store.records| ==> Located(id))
    }

    ghost predicate QueuedOk(id: nat)
      requires id in scheduler.tasks
    {
      scheduler.tasks[id].data.id == id && TaskOk(scheduler.tasks[id].data)
    }

    ghost predicate SchedulerOk() {
      scheduler.Inv() && forall id :: id in scheduler.tasks ==> QueuedOk(id)
    }

    static ghost predicate Distinct(s: seq<nat>) {
      forall i, j :: 0 <= i < j < |s| ==> s[i] != s[j]
    }

    /** The monitored workers are the idle ones and the busy ones. */
    ghost predicate PoolOk() {
      && Distinct(idle) && monitored != {}
      && (forall w :: w in monitored <==> w in idle || w in inFlight)
      && (forall w :: w in idle ==> w !in inFlight)
    }

    ghost predicate RunningOk() {
      SchedulerOk() && LocationOk() && PoolOk()
    }

    ghost predicate NoPending() {
      forall id: nat {:trigger IsPending(id)} :: !IsPending(id)
    }

    /** A lost directory's task stays in flight until the coordinator hears that its worker is gone. */
    ghost predicate LossesInFlight() {
      forall id :: id in lost ==> InFlight(id)
    }

    /** A running coordinator always has a worker in flight; one that completes has nothing left to do. */
    ghost predicate Inv() {
      && Core()
      && (mode.Running? ==> RunningOk() && inFlight != map[] && LossesInFlight())
      && (mode == Stopping(Completed) || mode == Finished(Completed) ==> NoPending() && inFlight == map[] && lost == {})
      && (mode.Stopping? ==> monitored != {})
      && (mode.Finished? ==> inFlight == map[] && monitored == {})
    }

    // -- The store follows the oracle ---------------------------------------------------------

    ghost predicate LinksKept(after: Store<seq<Entry>>) {
      && store.TreeShape() && after.TreeShape() && |store.records| <= |after.records|
      && forall k :: 0 <= k < |store.records| ==>
           after.records[k].parent == store.records[k].parent && after.records[k].row == store.records[k].row
    }

    lemma UnchangedRecordMatches(after: Store<seq<Entry>>, id: nat)
      requires LinksKept(after) && id < |store.records| && MatchesOracle(id)
      requires after.records[id] == store.records[id]
      ensures this.(store := after).MatchesOracle(id)
    {
      store.PathFrame(after, id);
    }

    lemma PublishLinks(task: Task, entries: seq<Entry>, tally: Tally)
      requires StoreOk() && TaskOk(task) && tally == CountRows(Rows(entries), config.policy)
      requires store.PublishStatus(task.id, |tally.children|, true) == Done
      ensures var after := store.Publish(task.id, entries, |entries|, tally.children, true);
              after.Inv() && LinksKept(after)
    {
      ChildRowsAreValid(Rows(entries), config.policy);
      store.ApplyInv(PublishStep(task.id, entries, |entries|, tally.children, true));
    }

    lemma PublishedMatches(task: Task, entries: seq<Entry>, tally: Tally)
      requires StoreOk() && TaskOk(task) && tally == CountRows(Rows(entries), config.policy)
      requires store.PublishStatus(task.id, |tally.children|, true) == Done
      requires At(config.root, task.path) == Some(Listing(entries))
      ensures var after := store.Publish(task.id, entries, |entries|, tally.children, true);
              this.(store := after).StoreOk() && LinksKept(after)
    {
      PublishLinks(task, entries, tally);
      var after := store.Publish(task.id, entries, |entries|, tally.children, true);
      var next := this.(store := after);
      forall id | 0 <= id < |after.records| ensures next.MatchesOracle(id) {
        if id < |store.records| {
          assert MatchesOracle(id);
          if id == task.id { store.PathFrame(after, id); } else { UnchangedRecordMatches(after, id); }
        } else {
          ChildMatches(task, entries, tally, id);
        }
      }
    }

    lemma ChildMatches(task: Task, entries: seq<Entry>, tally: Tally, id: nat)
      requires StoreOk() && TaskOk(task) && tally == CountRows(Rows(entries), config.policy)
      requires store.PublishStatus(task.id, |tally.children|, true) == Done
      requires At(config.root, task.path) == Some(Listing(entries))
      requires |store.records| <= id < |store.records| + |tally.children|
      ensures var after := store.Publish(task.id, entries, |entries|, tally.children, true);
              && after.TreeShape() && this.(store := after).MatchesOracle(id)
              && after.Path(id) == task.path + [tally.children[id - |store.records|]]
    {
      PublishLinks(task, entries, tally);
      var after := store.Publish(task.id, entries, |entries|, tally.children, true);
      var row := tally.children[id - |store.records|];
      store.PathFrame(after, task.id);
      assert after.Path(id) == task.path + [row];
      assert MatchesOracle(task.id);
      ChildrenAreTraversableRows(Rows(entries), config.policy);
      assert row in tally.children && IsChildRow(Rows(entries), config.policy, row);
      ExtendPath(config.root, config.policy, task.path, row);
      ExtendPath(config.root, config.policy, task.path + [row], 0);
    }

    lemma FailedMatches(task: Task, reason: nat)
      requires StoreOk() && TaskOk(task) && store.FailStatus(task.id, true) == Done
      requires At(config.root, task.path) == Some(Unreadable(reason))
      ensures var after := store.Fail(task.id, reason, true);
              this.(store := after).StoreOk() && LinksKept(after)
    {
      store.ApplyInv(FailStep(task.id, reason, true));
      var after := store.Fail(task.id, reason, true);
      var next := this.(store := after);
      assert store.ValidRecord(task.id);
      forall id | 0 <= id < |after.records| ensures next.MatchesOracle(id) {
        assert MatchesOracle(id);
        if id == task.id { store.PathFrame(after, id); } else { UnchangedRecordMatches(after, id); }
      }
    }

    /** Nothing but directory `id` changes, and new directories are its pending children. */
    ghost predicate OnlyGrowsUnder(id: nat, after: Store<seq<Entry>>) {
      && LinksKept(after)
      && (forall k {:trigger after.records[k]} :: 0 <= k < |store.records| && k != id ==> after.records[k] == store.records[k])
      && (forall k {:trigger after.records[k]} :: |store.records| <= k < |after.records| ==>
            after.records[k].parent == id && after.records[k].state == Pending && after.records[k].stored.None?)
    }

    /** The call either publishes what the oracle lists, or leaves the store alone and says why. */
    lemma ScanAndPublishOk(task: Task, memory: bool)
      requires StoreOk() && TaskOk(task) && IsPending(task.id) && task.id !in merged && task.id !in lost
      ensures var (result, after) := ScanAndPublish(task, memory);
              var next := this.(store := after);
              && next.StoreOk() && LinksKept(after)
              && next.TaskOk(task) && next.ResultOk(task, Reported(task.id, result))
              && OnlyGrowsUnder(task.id, after)
              && (after == store || next.IsPublished(task.id))
    {
      assert MatchesOracle(task.id);
      match At(config.root, task.path)
      case Some(Listing(entries)) =>
        var tally := CountRows(Rows(entries), config.policy);
        if store.PublishStatus(task.id, |tally.children|, memory) == Done {
          PublishedMatches(task, entries, tally);
          store.PathFrame(store.Publish(task.id, entries, |entries|, tally.children, true), task.id);
        }
      case _ =>
    }

    // -- Steps of a worker --------------------------------------------------------------------

    lemma NotPublishedWhilePending(id: nat)
      requires StoreOk() && PartitionOk() && IsPending(id)
      ensures !IsPublished(id) && id !in merged && id !in lost
    {
      assert store.ValidRecord(id);
    }

    lemma TaskKept(id: nat, after: Coordinator, task: Task)
      requires OnlyGrowsUnder(id, after.store) && TaskOk(task)
      ensures after.TaskOk(task)
    {
      store.PathFrame(after.store, task.id);
    }

    /** A worker whose task is not the directory that changed is not affected. */
    lemma WorkerKept(id: nat, after: Coordinator, w: nat)
      requires OnlyGrowsUnder(id, after.store) && w in workers && w in after.workers && WorkerOk(w)
      requires after.workers[w] == workers[w] && (w in monitored <==> w in after.monitored)
      requires after.config == config && merged <= after.merged && lost <= after.lost
      requires after.merged <= merged + {id} && after.lost <= lost + {id}
      requires w in inFlight <==> w in after.inFlight
      requires w in inFlight ==> after.inFlight[w] == inFlight[w] && inFlight[w].id != id
      ensures after.WorkerOk(w)
    {
      if w in inFlight { TaskKept(id, after, inFlight[w]); }
    }

    lemma WorkerRunsFlight(w: nat, memory: bool)
      requires StoreOk() && FlightOk() && PartitionOk() && CanRun(w)
      ensures w in inFlight && workers[w].inbox == [inFlight[w]] && IsPending(inFlight[w].id)
      ensures OnlyGrowsUnder(inFlight[w].id, WorkerRuns(w, memory).store)
      ensures var after := WorkerRuns(w, memory); after.StoreOk() && after.FlightOk()
    {
      assert WorkerOk(w);
      var task := inFlight[w];
      NotPublishedWhilePending(task.id);
      ScanAndPublishOk(task, memory);
      var after := WorkerRuns(w, memory);
      forall other | other in after.workers ensures after.WorkerOk(other) {
        if other != w { assert WorkerOk(other); WorkerKept(task.id, after, other); }
      }
      forall id | 0 <= id < |after.store.records| ensures after.MatchesOracle(id) {
        assert this.(store := after.store).MatchesOracle(id);
      }
    }

    lemma WorkerRunsPartition(w: nat, memory: bool)
      requires StoreOk() && FlightOk() && PartitionOk() && CanRun(w)
      ensures WorkerRuns(w, memory).PartitionOk()
    {
      WorkerRunsFlight(w, memory);
      var after := WorkerRuns(w, memory);
      var task := inFlight[w];
      NotPublishedWhilePending(task.id);
      forall id: nat | after.IsPublished(id) ensures after.Accounted(id) {
        if id == task.id {
          assert after.inFlight[w].id == id;
        } else {
          assert after.store.records[id] == store.records[id];
          assert Accounted(id);
        }
      }
      forall id | id in merged || id in lost ensures after.IsPublished(id) {
        assert IsPublished(id) && after.store.records[id] == store.records[id];
      }
    }

    lemma {:induction false} SumFrame(id: nat, after: Coordinator, ids: set<nat>, n: nat)
      requires OnlyGrowsUnder(id, after.store) && after.config == config && id !in ids
      requires forall k :: k in ids ==> k < |store.records|
      ensures after.SumOver(ids, n) == SumOver(ids, n)
    {
      if n > 0 {
        SumFrame(id, after, ids, n - 1);
        if n - 1 in ids { assert after.store.records[n - 1] == store.records[n - 1]; }
      }
    }

    lemma {:induction false} SumBeyond(ids: set<nat>, n: nat, m: nat)
      requires n <= m && forall k :: k in ids ==> k < n
      ensures SumOver(ids, m) == SumOver(ids, n)
      decreases m
    {
      if n < m { SumBeyond(ids, n, m - 1); }
    }

    lemma {:induction false} SumAdds(ids: set<nat>, id: nat, n: nat)
      requires id !in ids
      ensures SumOver(ids + {id}, n) == if id < n then AddTotals(SumOver(ids, n), TallyOf(id)) else SumOver(ids, n)
    {
      if n > 0 { SumAdds(ids, id, n - 1); }
    }

    lemma CountersKept(id: nat, after: Coordinator)
      requires CountersOk() && OnlyGrowsUnder(id, after.store) && after.config == config
      requires id !in merged && after.merged == merged && forall k :: k in merged ==> k < |store.records|
      requires after.counters == counters && after.store.failed == store.failed
      ensures after.CountersOk()
    {
      SumFrame(id, after, merged, |after.store.records|);
      SumBeyond(merged, |store.records|, |after.store.records|);
    }

    lemma WorkerRunsCore(w: nat, memory: bool)
      requires Core() && CanRun(w)
      ensures WorkerRuns(w, memory).Core()
    {
      WorkerRunsFlight(w, memory);
      WorkerRunsPartition(w, memory);
      NotPublishedWhilePending(inFlight[w].id);
      forall k | k in merged ensures k < |store.records| { assert IsPublished(k); }
      CountersKept(inFlight[w].id, WorkerRuns(w, memory));
    }

    lemma LocatedAfterGrowth(task: Task, after: Coordinator, id: nat)
      requires OnlyGrowsUnder(task.id, after.store) && LocationOk() && InFlight(task.id) && FlightOk()
      requires after.inFlight == inFlight && after.scheduler == scheduler && id < |after.store.records|
      requires IsPending(task.id) && after.store.records[task.id].state != State.Failed
      ensures after.Located(id)
    {
      assert forall k :: after.InFlight(k) == InFlight(k);
      if id < |store.records| {
        assert Located(id);
        if id != task.id { assert after.store.records[id] == store.records[id]; }
      } else {
        assert after.store.records[id].parent == task.id;
        if InFlight(id) { InFlightIsKnown(id); }
      }
    }

    lemma WorkerRunsLocations(w: nat, memory: bool)
      requires Core() && LocationOk() && SchedulerOk() && CanRun(w)
      ensures WorkerRuns(w, memory).LocationOk() && WorkerRuns(w, memory).SchedulerOk()
    {
      WorkerRunsFlight(w, memory);
      var after, task := WorkerRuns(w, memory), inFlight[w];
      assert after.WorkerOk(w);
      forall id | 0 <= id < |after.store.records| ensures after.Located(id) {
        LocatedAfterGrowth(task, after, id);
      }
      forall id | id in scheduler.tasks ensures after.QueuedOk(id) {
        assert QueuedOk(id);
        TaskKept(task.id, after, scheduler.tasks[id].data);
      }
    }

    lemma InFlightIsKnown(id: nat)
      requires FlightOk() && InFlight(id)
      ensures id < |store.records|
    {
      var w :| w in inFlight && inFlight[w].id == id;
      assert WorkerOk(w);
    }

    /** Steps that change worker processes only. */
    ghost predicate OnlyWorkersChange(after: Coordinator) {
      && after == this.(workers := after.workers, lost := after.lost)
      && after.workers.Keys == workers.Keys && lost <= after.lost
      && (forall id :: id in after.lost ==> id in lost || (IsPublished(id) && id !in merged && InFlight(id)))
      && (forall w :: w in workers ==> after.WorkerOk(w))
    }

    lemma OnlyWorkersChangeInv(after: Coordinator)
      requires Inv() && OnlyWorkersChange(after)
      ensures after.Inv()
    {
      OnlyWorkersChangeCore(after);
      if mode.Running? { OnlyWorkersChangeRunning(after); }
      if mode == Stopping(Completed) || mode == Finished(Completed) {
        forall id: nat ensures !after.IsPending(id) { assert !IsPending(id); }
      }
    }

    lemma OnlyWorkersChangeCore(after: Coordinator)
      requires Core() && OnlyWorkersChange(after)
      ensures after.Core()
    {
      assert forall id :: after.InFlight(id) == InFlight(id);
      forall id | 0 <= id < |store.records| ensures after.MatchesOracle(id) { assert MatchesOracle(id); }
      SumSame(after, merged, |store.records|);
      forall id: nat | after.IsPublished(id) ensures after.Accounted(id) {
        assert IsPublished(id) && Accounted(id);
      }
    }

    lemma OnlyWorkersChangeRunning(after: Coordinator)
      requires StoreOk() && RunningOk() && OnlyWorkersChange(after)
      ensures after.RunningOk() && forall id :: after.InFlight(id) == InFlight(id)
    {
      assert forall id :: after.InFlight(id) == InFlight(id);
      forall id | id in scheduler.tasks ensures after.QueuedOk(id) { assert QueuedOk(id); }
      forall id | 0 <= id < |store.records| ensures after.Located(id) { assert Located(id); }
    }

    lemma {:induction false} SumSame(after: Coordinator, ids: set<nat>, n: nat)
      requires after.store == store && after.config == config
      ensures after.SumOver(ids, n) == SumOver(ids, n)
    {
      if n > 0 { SumSame(after, ids, n - 1); }
    }

    /** Growing the set of lost directories only matters to a worker that holds the result of one of them. */
    lemma WorkerLosesNothing(after: Coordinator, w: nat, unsent: set<nat>)
      requires w in workers && WorkerOk(w) && after == this.(workers := after.workers, lost := lost + unsent)
      requires w in after.workers && after.workers[w] == workers[w]
      requires w in inFlight ==> inFlight[w].id !in unsent
      ensures after.WorkerOk(w)
    {
    }

    lemma SenderOk(w: nat)
      requires CanSend(w) && WorkerOk(w)
      ensures WorkerSends(w).WorkerOk(w)
    {
    }

    /** Another worker does not notice that this one has changed, or lost a result. */
    lemma OtherWorkerOk(after: Coordinator, w: nat, unsent: set<nat>, other: nat)
      requires w in workers && other in workers && other != w && WorkerOk(other) && w in after.workers
      requires after == this.(workers := workers[w := after.workers[w]], lost := lost + unsent)
      requires other in inFlight ==> inFlight[other].id !in unsent
      ensures after.WorkerOk(other)
    {
      WorkerLosesNothing(after, other, unsent);
    }

    lemma SendsOnlyChangesWorkers(w: nat)
      requires FlightOk() && CanSend(w)
      ensures OnlyWorkersChange(WorkerSends(w))
    {
      var after := WorkerSends(w);
      assert lost + {} == lost;
      forall other | other in workers ensures after.WorkerOk(other) {
        assert WorkerOk(other);
        if other == w { SenderOk(w); } else { OtherWorkerOk(after, w, {}, other); }
      }
    }

    lemma WorkerSendsInv(w: nat)
      requires Inv() && CanSend(w)
      ensures WorkerSends(w).Inv()
    {
      SendsOnlyChangesWorkers(w);
      OnlyWorkersChangeInv(WorkerSends(w));
    }

    lemma DeadOk(w: nat)
      requires CanDie(w) && WorkerOk(w)
      ensures WorkerDies(w).WorkerOk(w)
      ensures forall id :: id in Unsent(workers[w]) ==>
                w in inFlight && inFlight[w].id == id && IsPublished(id) && id !in merged
    {
    }

    lemma WorkerDiesInv(w: nat)
      requires Inv() && CanDie(w)
      ensures WorkerDies(w).Inv()
    {
      var after := WorkerDies(w);
      assert OnlyWorkersChange(after) by {
        assert WorkerOk(w);
        DeadOk(w);
        forall other | other in workers ensures after.WorkerOk(other) {
          assert WorkerOk(other);
          if other != w { OtherWorkerOk(after, w, Unsent(workers[w]), other); }
        }
      }
      OnlyWorkersChangeInv(after);
    }

    lemma StoppedOk(w: nat)
      requires CanStop(w) && WorkerOk(w)
      ensures WorkerStops(w).WorkerOk(w)
    {
    }

    lemma WorkerStopsInv(w: nat)
      requires Inv() && CanStop(w)
      ensures WorkerStops(w).Inv()
    {
      var after := WorkerStops(w);
      assert OnlyWorkersChange(after) by {
        assert lost + {} == lost;
        forall other | other in workers ensures after.WorkerOk(other) {
          assert WorkerOk(other);
          if other == w { StoppedOk(w); } else { OtherWorkerOk(after, w, {}, other); }
        }
      }
      OnlyWorkersChangeInv(after);
    }

    lemma WorkerRunsInv(w: nat, memory: bool)
      requires Inv() && CanRun(w)
      ensures WorkerRuns(w, memory).Inv()
    {
      WorkerRunsCore(w, memory);
      WorkerRunsFlight(w, memory);
      if mode.Running? { WorkerRunsLocations(w, memory); }
    }

    // -- Results reach the counters -----------------------------------------------------------

    lemma MailShape(w: nat)
      requires FlightOk() && CanDeliver(w)
      ensures w in monitored
      ensures workers[w].mail[0].Reported? ==>
                w in inFlight && TaskOk(inFlight[w]) && ResultOk(inFlight[w], workers[w].mail[0])
                && workers[w].inbox == [] && workers[w].ran.None?
                && workers[w].mail[1..] == if workers[w].alive then [] else [Down]
      ensures workers[w].mail[0].Down? ==>
                && !workers[w].alive && workers[w].mail == [Down]
                && (w in inFlight ==> IsPending(inFlight[w].id) || inFlight[w].id in lost)
    {
      assert WorkerOk(w);
    }

    /** The state in which a reported result has been taken and its worker freed. */
    function Taken(w: nat): Coordinator
      requires CanDeliver(w)
    {
      Received(w).(inFlight := inFlight - {w})
    }

    lemma TakenFlight(w: nat, after: Coordinator)
      requires StoreOk() && FlightOk() && PartitionOk() && CanDeliver(w) && workers[w].mail[0].Reported?
      requires after == Taken(w).(store := after.store, merged := after.merged, counters := after.counters)
      requires OnlyGrowsUnder(inFlight[w].id, after.store)
      requires merged <= after.merged <= merged + {inFlight[w].id}
      ensures after.FlightOk()
    {
      MailShape(w);
      forall other | other in after.workers ensures after.WorkerOk(other) {
        assert WorkerOk(other);
        if other != w { WorkerKept(inFlight[w].id, after, other); }
      }
    }

    lemma TakenPartition(w: nat, after: Coordinator)
      requires StoreOk() && FlightOk() && PartitionOk() && CanDeliver(w) && workers[w].mail[0].Reported?
      requires after == Taken(w).(store := after.store, merged := after.merged, counters := after.counters)
      requires OnlyGrowsUnder(inFlight[w].id, after.store) && |after.store.records| == |store.records|
      requires after.IsPublished(inFlight[w].id) == IsPublished(inFlight[w].id)
      requires after.merged == if IsPublished(inFlight[w].id) then merged + {inFlight[w].id} else merged
      ensures after.PartitionOk()
    {
      MailShape(w);
      var task := inFlight[w];
      if IsPending(task.id) { NotPublishedWhilePending(task.id); }
      forall id: nat | after.IsPublished(id) ensures after.Accounted(id) {
        assert IsPublished(id) by { if id != task.id { assert after.store.records[id] == store.records[id]; } }
        assert Accounted(id);
        if id != task.id && InFlight(id) {
          var v :| v in inFlight && inFlight[v].id == id;
          assert v in after.inFlight && after.inFlight[v].id == id;
        }
      }
      forall id | id in after.merged || id in lost ensures after.IsPublished(id) {
        assert IsPublished(id);
        if id != task.id { assert after.store.records[id] == store.records[id]; }
      }
    }

    lemma ScannedCounters(task: Task, tally: Tally, after: Coordinator)
      requires CountersOk() && IsPublished(task.id) && task.id !in merged && task.id < |store.records|
      requires tally == TallyOf(task.id)
      requires after.store == store && after.config == config
      requires after.merged == merged + {task.id} && after.counters == MergeCounters(counters, tally)
      ensures after.CountersOk()
    {
      SumAdds(merged, task.id, |store.records|);
      SumSame(after, after.merged, |store.records|);
      TotalMerge(counters.errorCounts, tally.errorCounts);
      CountsErrors(Rows(store.records[task.id].stored.value.block), config.policy);
    }

    lemma SettleScanned(w: nat, memory: bool)
      requires Core() && CanDeliver(w) && workers[w].mail[0].Reported? && workers[w].mail[0].result.Scanned?
      ensures w in inFlight && Taken(w).SettleResult(inFlight[w], workers[w].mail[0].result, memory).Core()
    {
      MailShape(w);
      var task, tally := inFlight[w], workers[w].mail[0].result.tally;
      var after := Taken(w).SettleResult(task, workers[w].mail[0].result, memory);
      TakenFlight(w, after);
      TakenPartition(w, after);
      ScannedCounters(task, tally, after);
      forall id | 0 <= id < |store.records| ensures after.MatchesOracle(id) { assert MatchesOracle(id); }
    }

    /** What settling a failed scan does to the store. */
    lemma SettleErrorStore(task: Task, result: WorkerResult, memory: bool)
      requires StoreOk() && TaskOk(task) && IsPending(task.id) && ResultOk(task, Reported(task.id, result))
      requires !result.Scanned?
      ensures var after := SettleResult(task, result, memory);
              && after == this.(store := after.store, counters := after.counters)
              && OnlyGrowsUnder(task.id, after.store) && |after.store.records| == |store.records|
              && !after.IsPublished(task.id) && after.StoreOk()
    {
      var after := SettleResult(task, result, memory);
      assert store.ValidRecord(task.id);
      if after.store != store { FailedMatches(task, result.reason); }
      forall id | 0 <= id < |after.store.records| ensures after.MatchesOracle(id) {
        assert MatchesOracle(id);
        assert this.(store := after.store).MatchesOracle(id);
      }
    }

    lemma SettleErrorCounters(task: Task, result: WorkerResult, memory: bool)
      requires CountersOk() && OnlyGrowsUnder(task.id, SettleResult(task, result, memory).store)
      requires task.id !in merged && !result.Scanned? && (forall k :: k in merged ==> k < |store.records|)
      ensures SettleResult(task, result, memory).CountersOk()
    {
      var after := SettleResult(task, result, memory);
      if after.store != store {
        TotalIncrement(counters.failureCategories, config.classify(result.reason).category);
        TotalIncrement(counters.failureReasons, result.reason);
      }
      SumFrame(task.id, after, merged, |store.records|);
    }

    lemma SettleError(w: nat, memory: bool)
      requires Core() && CanDeliver(w) && workers[w].mail[0].Reported? && !workers[w].mail[0].result.Scanned?
      ensures w in inFlight && Taken(w).SettleResult(inFlight[w], workers[w].mail[0].result, memory).Core()
    {
      MailShape(w);
      var task, result := inFlight[w], workers[w].mail[0].result;
      var after, settled := Taken(w).SettleResult(task, result, memory), SettleResult(task, result, memory);
      assert after == Taken(w).(store := settled.store, counters := settled.counters);
      NotPublishedWhilePending(task.id);
      SettleErrorStore(task, result, memory);
      TakenFlight(w, after);
      TakenPartition(w, after);
      forall id | 0 <= id < |after.store.records| ensures after.MatchesOracle(id) { assert settled.MatchesOracle(id); }
      forall k | k in merged ensures k < |store.records| { assert IsPublished(k); }
      SettleErrorCounters(task, result, memory);
      settled.SumSame(after, merged, |after.store.records|);
    }

    // -- Results reach the scheduler ----------------------------------------------------------

    /** Queue, idle list and mode play no part in the core invariant. */
    lemma SameCore(after: Coordinator)
      requires Core()
      requires after == this.(scheduler := after.scheduler, idle := after.idle, mode := after.mode)
      ensures after.Core()
    {
      forall id | 0 <= id < |store.records| ensures after.MatchesOracle(id) { assert MatchesOracle(id); }
      forall w | w in workers ensures after.WorkerOk(w) { assert WorkerOk(w); }
      SumSame(after, merged, |store.records|);
      forall id: nat | after.IsPublished(id) ensures after.Accounted(id) {
        assert IsPublished(id) && Accounted(id);
        assert after.InFlight(id) == InFlight(id);
      }
      forall id | id in merged || id in lost ensures after.IsPublished(id) { assert IsPublished(id); }
    }

    lemma {:induction false} IdsOfPairs(pairs: seq<(nat, Task)>, id: nat)
      ensures id in RankScheduler.Ids(pairs) <==> exists i :: 0 <= i < |pairs| && pairs[i].0 == id
    {
      if pairs != [] {
        IdsOfPairs(pairs[1..], id);
        assert forall i :: 1 <= i < |pairs| ==> pairs[i] == pairs[1..][i - 1];
      }
    }

    predicate InChildRange(parent: nat, id: nat)
      requires IsPublished(parent)
    {
      var stored := store.records[parent].stored.value;
      stored.firstChild <= id < stored.firstChild + |stored.childRows|
    }

    lemma ChildRangeIsParentLink(parent: nat, id: nat)
      requires store.TreeShape() && IsPublished(parent) && id < |store.records|
      ensures InChildRange(parent, id) <==> 0 < id && store.records[id].parent == parent
      ensures InChildRange(parent, id) ==>
                store.Path(id) == store.Path(parent)
                  + [store.records[parent].stored.value.childRows[id - store.records[parent].stored.value.firstChild]]
    {
      assert store.ValidRecord(parent);
      if id > 0 { assert store.Linked(id); }
    }

    lemma ChildRangeIsKnown(parent: nat, id: nat)
      requires store.TreeShape() && IsPublished(parent) && InChildRange(parent, id)
      ensures id < |store.records|
    {
      assert store.ValidRecord(parent);
    }

    /** The pairs of a reported result are the reserved child range. */
    lemma PairsAreChildRange(task: Task, message: Message, id: nat)
      requires store.TreeShape() && TaskOk(task) && ResultOk(task, message) && message.result.Scanned?
      ensures id in RankScheduler.Ids(Pairs(message.result.children)) <==> InChildRange(task.id, id)
    {
      var stored, pairs := store.records[task.id].stored.value, Pairs(message.result.children);
      IdsOfPairs(pairs, id);
      if InChildRange(task.id, id) { assert pairs[id - stored.firstChild].0 == id; }
    }

    lemma FreedInFlight(w: nat, after: Coordinator, id: nat)
      requires FlightOk() && w in inFlight && after.inFlight == inFlight - {w}
      ensures after.InFlight(id) <==> InFlight(id) && id != inFlight[w].id
    {
      if InFlight(id) && id != inFlight[w].id {
        var v :| v in inFlight && inFlight[v].id == id;
        assert v in after.inFlight && after.inFlight[v].id == id;
      }
    }

    /** The queue afterwards is the queue before and the reported children. */
    ghost predicate Queues(parent: nat, after: Coordinator, id: nat) {
      id in after.scheduler.tasks <==> id in scheduler.tasks || (IsPublished(parent) && InChildRange(parent, id))
    }

    ghost predicate Frees(freed: nat, after: Coordinator, id: nat) {
      after.InFlight(id) <==> InFlight(id) && id != freed
    }

    lemma ScannedKeys(w: nat, after: Coordinator, id: nat)
      requires Core() && SchedulerOk()
      requires CanDeliver(w) && workers[w].mail[0].Reported? && workers[w].mail[0].result.Scanned?
      requires var put := scheduler.PutTasks(Pairs(workers[w].mail[0].result.children));
               put.Ok? && after.scheduler == put.value
      ensures w in inFlight && Queues(inFlight[w].id, after, id)
    {
      MailShape(w);
      scheduler.PutEvaluatedTasksInv(Pairs(workers[w].mail[0].result.children));
      PairsAreChildRange(inFlight[w], workers[w].mail[0], id);
    }

    lemma ScannedLocated(task: Task, after: Coordinator, id: nat)
      requires store.TreeShape() && IsPublished(task.id) && InFlight(task.id)
      requires id < |store.records| && Located(id) && after.store == store
      requires Frees(task.id, after, id) && Queues(task.id, after, id)
      requires id > 0 ==> Frees(task.id, after, store.records[id].parent)
      ensures after.Located(id)
    {
      ChildRangeIsParentLink(task.id, id);
      assert store.ValidRecord(task.id);
    }

    lemma ScannedLocations(w: nat, after: Coordinator)
      requires Core() && LocationOk() && SchedulerOk()
      requires CanDeliver(w) && workers[w].mail[0].Reported? && workers[w].mail[0].result.Scanned?
      requires after.store == store && w in inFlight && after.inFlight == inFlight - {w}
      requires var put := scheduler.PutTasks(Pairs(workers[w].mail[0].result.children));
               put.Ok? && after.scheduler == put.value
      ensures after.LocationOk()
    {
      var task := inFlight[w];
      assert IsPublished(task.id) by { MailShape(w); }
      forall id | id in after.scheduler.tasks ensures id < |store.records| {
        ScannedKeys(w, after, id);
        if InChildRange(task.id, id) { ChildRangeIsKnown(task.id, id); }
      }
      forall id | 0 <= id < |store.records| ensures after.Located(id) {
        ScannedKeys(w, after, id);
        FreedInFlight(w, after, id);
        if id > 0 { FreedInFlight(w, after, store.records[id].parent); }
        assert Located(id) && InFlight(task.id);
        ScannedLocated(task, after, id);
      }
    }

    lemma ChildTaskOk(task: Task, message: Message, child: Task)
      requires store.TreeShape() && TaskOk(task) && ResultOk(task, message) && message.result.Scanned?
      requires child in message.result.children
      ensures TaskOk(child)
    {
      var i :| 0 <= i < |message.result.children| && message.result.children[i] == child;
      assert InChildRange(task.id, child.id);
      ChildRangeIsKnown(task.id, child.id);
      ChildRangeIsParentLink(task.id, child.id);
    }

    lemma ScannedQueue(w: nat, after: Coordinator)
      requires Core() && SchedulerOk()
      requires CanDeliver(w) && workers[w].mail[0].Reported? && workers[w].mail[0].result.Scanned?
      requires after.store == store
      requires var put := scheduler.PutTasks(Pairs(workers[w].mail[0].result.children));
               put.Ok? && after.scheduler == put.value
      ensures after.SchedulerOk()
    {
      var children := workers[w].mail[0].result.children;
      scheduler.PutEvaluatedTasksInv(Pairs(children));
      forall id | id in after.scheduler.tasks ensures after.QueuedOk(id) {
        scheduler.PutEvaluatedTasksData(Pairs(children), id);
        PutTaskOk(w, after, id);
      }
    }

    lemma PutTaskOk(w: nat, after: Coordinator, id: nat)
      requires Core() && SchedulerOk() && id in after.scheduler.tasks && after.store == store
      requires CanDeliver(w) && workers[w].mail[0].Reported? && workers[w].mail[0].result.Scanned?
      requires var data := after.scheduler.tasks[id].data;
               (id in scheduler.tasks && data == scheduler.tasks[id].data)
               || (id, data) in Pairs(workers[w].mail[0].result.children)
      ensures after.QueuedOk(id)
    {
      MailShape(w);
      var data, children := after.scheduler.tasks[id].data, workers[w].mail[0].result.children;
      if (id, data) in Pairs(children) {
        var i :| 0 <= i < |children| && Pairs(children)[i] == (id, data);
        ChildTaskOk(inFlight[w], workers[w].mail[0], data);
      } else {
        assert QueuedOk(id);
      }
    }

    lemma FailedLocations(w: nat, after: Coordinator)
      requires Core() && LocationOk() && SchedulerOk() && w in inFlight && IsPending(inFlight[w].id)
      requires OnlyGrowsUnder(inFlight[w].id, after.store) && |after.store.records| == |store.records|
      requires after.store.records[inFlight[w].id].state == State.Failed
      requires after.inFlight == inFlight - {w} && after.scheduler == scheduler
      ensures after.LocationOk() && after.SchedulerOk()
    {
      var task := inFlight[w];
      assert InFlight(task.id);
      forall id | 0 <= id < |after.store.records| ensures after.Located(id) {
        assert Located(id);
        FreedInFlight(w, after, id);
        if id > 0 {
          assert store.Linked(id) && store.ValidRecord(task.id);
          FreedInFlight(w, after, store.records[id].parent);
        }
        if id != task.id { assert after.store.records[id] == store.records[id]; }
      }
      forall id | id in scheduler.tasks ensures after.QueuedOk(id) {
        assert QueuedOk(id);
        TaskKept(task.id, after, scheduler.tasks[id].data);
      }
    }
  }
}
