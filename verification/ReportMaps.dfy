/** The count maps of the counters, key by key: errors by number, failures by reason and by category. */
module ReportMaps {
  import opened Coordinators
  import opened CoordinatorRuns
  import opened CoordinatorSteps
  import opened Counts
  import opened Scan
  import opened StoreModel
  import opened Terms
  import Schedulers

  datatype Key = ErrorNumber(error: nat) | Reason(reason: nat) | Category(category: nat)

  function Counted(counters: Counters, key: Key): nat {
    match key
    case ErrorNumber(error) => CountOf(counters.errorCounts, error)
    case Reason(reason) => CountOf(counters.failureReasons, reason)
    case Category(category) => CountOf(counters.failureCategories, category)
  }

  ghost predicate IsFailed(c: Coordinator, id: nat) {
    id < |c.store.records| && c.store.records[id].state == State.Failed
  }

  /** What one directory of the store has added to a count. */
  ghost function Part(c: Coordinator, key: Key, id: nat): nat {
    match key
    case ErrorNumber(error) => if id in c.merged then CountOf(c.TallyOf(id).errorCounts, error) else 0
    case Reason(reason) => if IsFailed(c, id) && c.store.records[id].errno == reason then 1 else 0
    case Category(category) =>
      if IsFailed(c, id) && c.config.classify(c.store.records[id].errno) == Recoverable(category) then 1 else 0
  }

  ghost function PartsBelow(c: Coordinator, key: Key, n: nat): nat {
    if n == 0 then 0 else PartsBelow(c, key, n - 1) + Part(c, key, n - 1)
  }

  ghost predicate KeyOk(c: Coordinator, key: Key) {
    Counted(c.counters, key) == PartsBelow(c, key, |c.store.records|)
  }

  predicate NoZeros<K(!new)>(counts: Counts<K>) {
    forall key :: key in counts ==> counts[key] > 0
  }

  /** Each count is that of the directories merged or failed so far, and there are no other entries. */
  ghost predicate MapsOk(c: Coordinator) {
    && (forall key :: KeyOk(c, key))
    && NoZeros(c.counters.errorCounts) && NoZeros(c.counters.failureReasons) && NoZeros(c.counters.failureCategories)
  }

  ghost predicate SamePart(c: Coordinator, after: Coordinator, key: Key, id: nat) {
    Part(after, key, id) == Part(c, key, id)
  }

  /** Only the part of one directory may change. */
  lemma {:induction false} PartsChange(c: Coordinator, after: Coordinator, key: Key, id: nat, n: nat)
    requires forall k: nat :: k < n && k != id ==> SamePart(c, after, key, k)
    ensures PartsBelow(after, key, n) + (if id < n then Part(c, key, id) else 0)
            == PartsBelow(c, key, n) + if id < n then Part(after, key, id) else 0
  {
    if n > 0 {
      PartsChange(c, after, key, id, n - 1);
      if n - 1 != id { assert SamePart(c, after, key, n - 1); }
    }
  }

  lemma {:induction false} PartsBeyond(c: Coordinator, key: Key, n: nat, m: nat)
    requires n <= m && forall k :: n <= k < m ==> Part(c, key, k) == 0
    ensures PartsBelow(c, key, m) == PartsBelow(c, key, n)
    decreases m
  {
    if n < m { PartsBeyond(c, key, n, m - 1); }
  }

  /** The count and the part of one directory grow alike. */
  lemma KeyGrows(c: Coordinator, after: Coordinator, key: Key, id: nat)
    requires KeyOk(c, key) && id < |c.store.records| <= |after.store.records|
    requires forall k: nat :: k < |c.store.records| && k != id ==> SamePart(c, after, key, k)
    requires forall k :: |c.store.records| <= k < |after.store.records| ==> Part(after, key, k) == 0
    requires Counted(after.counters, key) + Part(c, key, id) == Counted(c.counters, key) + Part(after, key, id)
    ensures KeyOk(after, key)
  {
    PartsChange(c, after, key, id, |c.store.records|);
    PartsBeyond(after, key, |c.store.records|, |after.store.records|);
  }

  // -- Steps that leave the books alone -----------------------------------------------------------------

  ghost predicate SameBooks(c: Coordinator, after: Coordinator) {
    after.config == c.config && after.store == c.store && after.counters == c.counters && after.merged == c.merged
  }

  lemma SameMaps(c: Coordinator, after: Coordinator)
    requires MapsOk(c) && SameBooks(c, after)
    ensures MapsOk(after)
  {
    forall key ensures KeyOk(after, key) {
      assert KeyOk(c, key);
      forall k: nat ensures SamePart(c, after, key, k) {}
      PartsChange(c, after, key, |c.store.records|, |c.store.records|);
    }
  }

  lemma {:induction false} DispatchBooks(c: Coordinator)
    ensures SameBooks(c, c.Dispatch()) && SameBooks(c, c.DispatchAndFinish())
    decreases |c.idle|
  {
    if c.idle != [] && c.scheduler.Pop().Some? && c.idle[0] in c.workers { DispatchBooks(AssignFirst(c)); }
  }

  // -- A worker publishes -------------------------------------------------------------------------------

  lemma NewPartsAreEmpty(c: Coordinator, after: Coordinator, id: nat, key: Key, k: nat)
    requires c.PartitionOk() && c.OnlyGrowsUnder(id, after.store) && after.merged == c.merged
    requires |c.store.records| <= k < |after.store.records|
    ensures Part(after, key, k) == 0
  {
    assert after.store.records[k].state == Pending;
    assert k in c.merged ==> c.IsPublished(k);
  }

  lemma OtherPartsStay(c: Coordinator, after: Coordinator, id: nat, key: Key, k: nat)
    requires c.OnlyGrowsUnder(id, after.store) && after.config == c.config && k != id && k < |c.store.records|
    requires k in after.merged <==> k in c.merged
    ensures SamePart(c, after, key, k)
  {
    assert after.store.records[k] == c.store.records[k];
  }

  /** A directory that was pending and is not merged adds nothing, before and after it is published. */
  lemma PublishedMaps(c: Coordinator, after: Coordinator, id: nat)
    requires MapsOk(c) && c.PartitionOk() && c.OnlyGrowsUnder(id, after.store) && id < |c.store.records| && id !in c.merged
    requires !IsFailed(c, id) && !IsFailed(after, id)
    requires after.config == c.config && after.counters == c.counters && after.merged == c.merged
    ensures MapsOk(after)
  {
    forall key ensures KeyOk(after, key) {
      assert KeyOk(c, key);
      forall k: nat | k < |c.store.records| && k != id ensures SamePart(c, after, key, k) { OtherPartsStay(c, after, id, key, k); }
      forall k | |c.store.records| <= k < |after.store.records| ensures Part(after, key, k) == 0 {
        NewPartsAreEmpty(c, after, id, key, k);
      }
      KeyGrows(c, after, key, id);
    }
  }

  lemma ScanFailsNothing(c: Coordinator, task: Task, memory: bool)
    requires c.IsPending(task.id)
    ensures var after := c.ScanAndPublish(task, memory).1;
            task.id < |after.records| && after.records[task.id].state != State.Failed
  {
  }

  lemma RunsKeepsMaps(c: Coordinator, w: nat, memory: bool)
    requires c.Core() && MapsOk(c) && c.CanRun(w)
    ensures MapsOk(c.WorkerRuns(w, memory))
  {
    c.WorkerRunsFlight(w, memory);
    c.NotPublishedWhilePending(c.inFlight[w].id);
    ScanFailsNothing(c, c.inFlight[w], memory);
    PublishedMaps(c, c.WorkerRuns(w, memory), c.inFlight[w].id);
  }

  // -- A result is counted ------------------------------------------------------------------------------

  lemma {:induction false} RowErrorsArePositive(rows: seq<Row>, policy: MountPolicy)
    ensures NoZeros(CountRows(rows, policy).errorCounts)
  {
    if rows != [] { RowErrorsArePositive(rows[..|rows| - 1], policy); }
  }

  lemma CountIncrement<K>(counts: Counts<K>, key: K, other: K)
    ensures CountOf(Increment(counts, key), other) == CountOf(counts, other) + if other == key then 1 else 0
  {
  }

  lemma ScannedMaps(c: Coordinator, id: nat, tally: Tally, after: Coordinator)
    requires MapsOk(c) && c.IsPublished(id) && id !in c.merged && tally == c.TallyOf(id)
    requires after.config == c.config && after.store == c.store && after.merged == c.merged + {id}
    requires after.counters == MergeCounters(c.counters, tally)
    ensures MapsOk(after)
  {
    forall key ensures KeyOk(after, key) {
      assert KeyOk(c, key);
      forall k: nat | k < |c.store.records| && k != id ensures SamePart(c, after, key, k) {}
      if key.ErrorNumber? { MergeWithout(c.counters.errorCounts, tally.errorCounts, key.error); }
      KeyGrows(c, after, key, id);
    }
    RowErrorsArePositive(Rows(c.store.records[id].stored.value.block), c.config.policy);
  }

  lemma FailedMaps(c: Coordinator, id: nat, reason: nat, category: nat, after: Coordinator)
    requires MapsOk(c) && c.StoreOk() && c.PartitionOk() && c.IsPending(id) && c.config.classify(reason) == Recoverable(category)
    requires c.store.FailStatus(id, true) == Done && after.store == c.store.Fail(id, reason, true)
    requires after.config == c.config && after.merged == c.merged
    requires after.counters == RecordFailure(c.counters, reason, category)
    ensures MapsOk(after)
  {
    c.NotPublishedWhilePending(id);
    forall key ensures KeyOk(after, key) {
      assert KeyOk(c, key);
      forall k: nat | k < |c.store.records| && k != id ensures SamePart(c, after, key, k) {
        assert after.store.records[k] == c.store.records[k];
      }
      if key.Reason? { CountIncrement(c.counters.failureReasons, reason, key.reason); }
      if key.Category? { CountIncrement(c.counters.failureCategories, category, key.category); }
      KeyGrows(c, after, key, id);
    }
  }

  lemma SettleMaps(c: Coordinator, w: nat, memory: bool)
    requires c.Core() && MapsOk(c) && HasResult(c, w)
    ensures w in c.inFlight && MapsOk(c.SettleResult(c.inFlight[w], c.workers[w].mail[0].result, memory))
  {
    c.MailShape(w);
    var task, result := c.inFlight[w], c.workers[w].mail[0].result;
    var after := c.SettleResult(task, result, memory);
    match result
    case Scanned(_, tally) => ScannedMaps(c, task.id, tally, after);
    case DirectoryError(reason) =>
      if SameBooks(c, after) { SameMaps(c, after); } else { FailedMaps(c, task.id, reason, c.config.classify(reason).category, after); }
    case StoreError =>
  }

  /** A running coordinator books a result as a stopping one does. */
  lemma HandleBooks(c: Coordinator, w: nat, memory: bool)
    requires c.monitored != {} && HasResult(c, w) && w in c.inFlight
    ensures var result := c.workers[w].mail[0].result;
            SameBooks(c.SettleResult(c.inFlight[w], result, memory), Freed(c, w).HandleResult(c.inFlight[w], result, memory))
  {
    HandleIsSettle(Freed(c, w), c.inFlight[w], c.workers[w].mail[0].result, memory);
  }

  /** What delivering a result books is what settling it books, in any mode. */
  lemma DeliverBooks(c: Coordinator, w: nat, memory: bool)
    requires c.Core() && c.monitored != {} && !c.mode.Finished? && HasResult(c, w)
    ensures w in c.inFlight
    ensures SameBooks(c.SettleResult(c.inFlight[w], c.workers[w].mail[0].result, memory), c.Deliver(w, memory))
  {
    c.MailShape(w);
    if c.mode.Running? {
      DeliveredResult(c, w, memory);
      HandleBooks(c, w, memory);
      DispatchBooks(Handled(c, w, memory));
    }
  }

  lemma DownBooks(c: Coordinator, w: nat, memory: bool)
    requires c.CanDeliver(w) && !HasResult(c, w)
    ensures SameBooks(c, c.Deliver(w, memory))
  {
  }

  lemma DeliverKeepsMaps(c: Coordinator, w: nat, memory: bool)
    requires c.Core() && c.monitored != {} && MapsOk(c) && c.CanDeliver(w) && (c.mode.Finished? ==> !HasResult(c, w))
    ensures MapsOk(c.Deliver(w, memory))
  {
    if HasResult(c, w) {
      SettleMaps(c, w, memory);
      DeliverBooks(c, w, memory);
      SameMaps(c.SettleResult(c.inFlight[w], c.workers[w].mail[0].result, memory), c.Deliver(w, memory));
    } else {
      DownBooks(c, w, memory);
      SameMaps(c, c.Deliver(w, memory));
    }
  }

  lemma RanksKeepMaps(c: Coordinator, values: map<Term, Term>)
    requires MapsOk(c)
    ensures MapsOk(c.PutRankData(values))
  {
    var put := c.scheduler.PutData(values);
    if put.Ok? { DispatchBooks(c.(scheduler := put.value)); }
    SameMaps(c, c.PutRankData(values));
  }

  // -- Whole runs ---------------------------------------------------------------------------------------

  lemma NextKeepsMaps(c: Coordinator, event: Event)
    requires c.Inv() && MapsOk(c)
    ensures MapsOk(Next(c, event))
  {
    if Enabled(c, event) {
      match event
      case Runs(w, memory) => RunsKeepsMaps(c, w, memory);
      case Delivers(w, memory) => c.MailShape(w); DeliverKeepsMaps(c, w, memory);
      case ChangesRanks(values) => RanksKeepMaps(c, values);
      case _ => SameMaps(c, Next(c, event));
    }
  }

  /** In every reachable state each entry of the count maps is that of the directories counted so far. */
  lemma {:induction false} EveryRunKeepsMaps(c: Coordinator, events: seq<Event>)
    requires c.Inv() && MapsOk(c)
    ensures MapsOk(Run(c, events))
    decreases |events|
  {
    if events != [] {
      NextKeepsMaps(c, events[0]);
      NextInv(c, events[0]);
      EveryRunKeepsMaps(Next(c, events[0]), events[1..]);
    }
  }

  lemma StartMaps(config: Config, ranker: Ranker, data: map<Term, Term>, n: nat)
    requires Start(config, ranker, data, n).Ok?
    ensures MapsOk(Start(config, ranker, data, n).value)
  {
    var put := Schedulers.Scheduler<nat, Task, Term, Term>.New(ranker, data).PutTask(ROOT, ROOT_TASK);
    var c := Prepared(config, put.value, n);
    forall key ensures KeyOk(c, key) { assert PartsBelow(c, key, 1) == PartsBelow(c, key, 0) + Part(c, key, 0); }
    DispatchBooks(c);
    SameMaps(c, c.DispatchAndFinish());
  }
}
