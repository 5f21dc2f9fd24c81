/** What a finished run has in its store and says in its report. */
module Reports {
  import opened Coordinators
  import opened CoordinatorRuns
  import opened Counts
  import opened Options
  import opened Scan
  import opened StoreModel
  import opened Terms
  import ReportMaps
  import Schedulers

  ghost predicate Succeeded(c: Coordinator) {
    c.Inv() && (c.mode == Stopping(Completed) || c.mode == Finished(Completed))
  }

  // -- The closure ------------------------------------------------------------------------------------

  ghost predicate Visited(c: Coordinator, path: Path) {
    exists id: nat :: c.store.HasPath(id, path)
  }

  lemma VisitedIsReachable(c: Coordinator, path: Path)
    requires c.StoreOk() && Visited(c, path)
    ensures Reachable(c.config.root, c.config.policy, path)
  {
    var id: nat :| c.store.HasPath(id, path);
    assert c.MatchesOracle(id);
  }

  /** A published directory names each of its child rows by one of its child IDs. */
  lemma ChildIsVisited(c: Coordinator, id: nat, row: nat)
    requires c.StoreOk() && c.IsPublished(id) && row in c.store.records[id].stored.value.childRows
    ensures Visited(c, c.store.Path(id) + [row])
  {
    var stored := c.store.records[id].stored.value;
    var i :| 0 <= i < |stored.childRows| && stored.childRows[i] == row;
    var child := stored.firstChild + i;
    assert c.InChildRange(id, child);
    c.ChildRangeIsKnown(id, child);
    c.ChildRangeIsParentLink(id, child);
    assert c.store.HasPath(child, c.store.Path(id) + [row]);
  }

  lemma {:induction false} ReachableIsVisited(c: Coordinator, path: Path)
    requires c.StoreOk() && c.NoPending() && Reachable(c.config.root, c.config.policy, path)
    ensures Visited(c, path)
    decreases |path|
  {
    if path == [] {
      assert c.store.HasPath(ROOT, path);
    } else {
      var above, row := path[..|path| - 1], path[|path| - 1];
      ParentIsReachable(c.config.root, c.config.policy, path);
      ReachableIsVisited(c, above);
      var id: nat :| c.store.HasPath(id, above);
      assert above + [row] == path;
      ExtendPath(c.config.root, c.config.policy, above, row);
      assert c.MatchesOracle(id) && !c.IsPending(id) && c.store.ValidRecord(id);
      var entries := At(c.config.root, above).value.entries;
      ChildrenAreTraversableRows(Rows(entries), c.config.policy);
      assert IsChildRow(Rows(entries), c.config.policy, row);
      ChildIsVisited(c, id, row);
    }
  }

  /** A successful run visits exactly the closure of the root under the mount policy. */
  lemma SuccessVisitsTheClosure(c: Coordinator, path: Path)
    requires Succeeded(c)
    ensures Visited(c, path) <==> Reachable(c.config.root, c.config.policy, path)
  {
    if Visited(c, path) { VisitedIsReachable(c, path); }
    if Reachable(c.config.root, c.config.policy, path) { ReachableIsVisited(c, path); }
  }

  /** What the store says of a finished directory, free of IDs. */
  datatype Outcome = Outcome(path: Path, found: Directory)

  ghost function OutcomeOf(c: Coordinator, id: nat): Outcome
    requires c.StoreOk() && id < |c.store.records|
  {
    var record := c.store.records[id];
    Outcome(c.store.Path(id),
            if record.stored.Some? then Listing(record.stored.value.block) else Unreadable(record.errno))
  }

  ghost predicate HasOutcome(c: Coordinator, id: nat, outcome: Outcome) {
    c.StoreOk() && id < |c.store.records| && c.store.Terminal(id) && OutcomeOf(c, id) == outcome
  }

  ghost predicate Contains(c: Coordinator, outcome: Outcome) {
    exists id: nat :: HasOutcome(c, id, outcome)
  }

  ghost predicate InClosure(config: Config, outcome: Outcome) {
    && Reachable(config.root, config.policy, outcome.path)
    && At(config.root, outcome.path) == Some(outcome.found)
  }

  lemma OutcomeMatches(c: Coordinator, id: nat)
    requires c.StoreOk() && c.store.Terminal(id)
    ensures InClosure(c.config, OutcomeOf(c, id))
  {
    assert c.MatchesOracle(id) && c.store.ValidRecord(id);
  }

  /** The paths, states and rows of a successful run are those of the closure. */
  lemma SuccessIsTheClosure(c: Coordinator, outcome: Outcome)
    requires Succeeded(c)
    ensures Contains(c, outcome) <==> InClosure(c.config, outcome)
  {
    if Contains(c, outcome) {
      var id: nat :| HasOutcome(c, id, outcome);
      OutcomeMatches(c, id);
    }
    if InClosure(c.config, outcome) {
      ReachableIsVisited(c, outcome.path);
      var id: nat :| c.store.HasPath(id, outcome.path);
      assert !c.IsPending(id);
      OutcomeMatches(c, id);
      assert HasOutcome(c, id, outcome);
    }
  }

  /**
    Two successful runs over the same filesystem end with the same directories, states and rows, whatever
    their rankings, rank changes, worker counts and interleavings.
   */
  lemma RunsAgree(c: Coordinator, d: Coordinator, outcome: Outcome)
    requires Succeeded(c) && Succeeded(d) && c.config.root == d.config.root && c.config.policy == d.config.policy
    ensures Contains(c, outcome) <==> Contains(d, outcome)
  {
    SuccessIsTheClosure(c, outcome);
    SuccessIsTheClosure(d, outcome);
  }

  // -- Conservation -----------------------------------------------------------------------------------

  predicate WellScanned(directory: Directory) {
    directory.Listing? ==>
      && ErrorsHaveNoType(Rows(directory.entries))
      && forall i :: 0 <= i < |directory.entries| ==> WellScanned(directory.entries[i].below)
  }

  lemma {:induction false} WellScannedBelow(directory: Directory, path: Path)
    requires WellScanned(directory) && At(directory, path).Some?
    ensures WellScanned(At(directory, path).value)
    decreases |path|
  {
    if path != [] { WellScannedBelow(directory.entries[path[0]].below, path[1..]); }
  }

  lemma TallyIsStored(c: Coordinator, id: nat)
    requires c.StoreOk() && c.IsPublished(id)
    ensures var stored, t := c.store.records[id].stored.value, c.TallyOf(id);
            && t.entries == stored.count
            && t.entries == t.directories + t.regularFiles + t.symlinks + t.other
            && |t.children| == |stored.childRows|
            && (WellScanned(c.config.root) ==> t.directories == |stored.childRows| + t.skippedMounts)
  {
    assert c.MatchesOracle(id);
    var rows := Rows(c.store.records[id].stored.value.block);
    CountsEveryRow(rows, c.config.policy);
    CountsAreConserved(rows, c.config.policy);
    if WellScanned(c.config.root) { WellScannedBelow(c.config.root, c.store.Path(id)); }
  }

  lemma {:induction false} SumsAreStored(c: Coordinator, ids: set<nat>, n: nat)
    requires c.StoreOk() && n <= |c.store.records|
    requires forall id :: 0 <= id < n ==> (id in ids <==> c.IsPublished(id))
    ensures var t := c.SumOver(ids, n);
            && t.entries == c.store.EntrySum(n)
            && (WellScanned(c.config.root) ==> t.directories == c.store.ChildSum(n) + t.skippedMounts)
  {
    if n > 0 {
      SumsAreStored(c, ids, n - 1);
      if c.IsPublished(n - 1) { TallyIsStored(c, n - 1); }
    }
  }

  lemma {:induction false} SumTypesAddUp(c: Coordinator, ids: set<nat>, n: nat)
    requires c.StoreOk() && forall id :: id in ids ==> c.IsPublished(id)
    ensures var t := c.SumOver(ids, n); t.entries == t.directories + t.regularFiles + t.symlinks + t.other
  {
    if n > 0 {
      SumTypesAddUp(c, ids, n - 1);
      if n - 1 in ids { TallyIsStored(c, n - 1); }
    }
  }

  lemma {:induction false} SumOfUnion(c: Coordinator, a: set<nat>, b: set<nat>, n: nat)
    requires a !! b
    ensures var t, u, v := c.SumOver(a + b, n), c.SumOver(a, n), c.SumOver(b, n);
            && t.entries == u.entries + v.entries && t.directories == u.directories + v.directories
            && t.skippedMounts == u.skippedMounts + v.skippedMounts
  {
    if n > 0 { SumOfUnion(c, a, b, n - 1); }
  }

  /** With no task in flight, a published directory is counted or was lost with its worker. */
  lemma PublishedIsCounted(c: Coordinator, id: nat)
    requires c.Core() && c.inFlight == map[]
    ensures id in c.merged + c.lost <==> c.IsPublished(id)
  {
    if c.IsPublished(id) { assert c.Accounted(id) && !c.InFlight(id); }
  }

  /**
    The report of every finished run, successful or not, is short of the store by exactly the directories
    whose worker died between publishing and reporting: entries are conserved from rows to store, each
    directory row is an ID or a skipped mount, and each failure is counted once per category and per reason.
   */
  lemma ReportIsConserved(c: Coordinator)
    requires c.Inv() && c.mode.Finished?
    ensures c.counters.entries
            == c.counters.directories + c.counters.regularFiles + c.counters.symlinks + c.counters.other
    ensures var missed := c.SumOver(c.lost, |c.store.records|);
            && c.counters.entries + missed.entries == c.store.entries
            && (WellScanned(c.config.root) ==>
                  |c.store.records| + c.counters.skippedMounts + missed.skippedMounts
                  == 1 + c.counters.directories + missed.directories)
            && (c.lost == {} ==> missed == NO_TOTALS)
    ensures Total(c.counters.failureCategories) == c.store.failed == Total(c.counters.failureReasons)
    ensures Total(c.counters.errorCounts) == c.counters.metadataErrors
  {
    var n := |c.store.records|;
    forall id | 0 <= id < n ensures id in c.merged + c.lost <==> c.IsPublished(id) {
      PublishedIsCounted(c, id);
    }
    SumsAreStored(c, c.merged + c.lost, n);
    SumOfUnion(c, c.merged, c.lost, n);
    SumTypesAddUp(c, c.merged, n);
    SumOfNone(c, n);
  }

  lemma {:induction false} SumOfNone(c: Coordinator, n: nat)
    ensures c.SumOver({}, n) == NO_TOTALS
  {
    if n > 0 { SumOfNone(c, n - 1); }
  }

  // -- Completeness -----------------------------------------------------------------------------------

  /** A run is complete if it was allowed to be, and nothing is pending, failed or unreadable. */
  predicate IsComplete(c: Coordinator) {
    && c.mode == Finished(Completed)
    && |c.store.records| == c.store.published + c.store.failed
    && c.store.failed == 0
    && c.counters.metadataErrors == 0
  }

  ghost predicate NoRowErrors(entries: seq<Entry>) {
    forall i :: 0 <= i < |entries| ==> entries[i].row.error.None?
  }

  lemma {:induction false} ErrorsAreCounted(rows: seq<Row>, policy: MountPolicy)
    ensures CountRows(rows, policy).metadataErrors == 0 <==> forall i :: 0 <= i < |rows| ==> rows[i].error.None?
  {
    if rows != [] { ErrorsAreCounted(rows[..|rows| - 1], policy); }
  }

  lemma {:induction false} NoErrorsInSum(c: Coordinator, n: nat)
    requires c.StoreOk() && n <= |c.store.records|
    requires forall id :: 0 <= id < n ==> (id in c.merged <==> c.IsPublished(id))
    ensures c.SumOver(c.merged, n).metadataErrors == 0
            <==> forall id :: 0 <= id < n && c.IsPublished(id) ==> NoRowErrors(c.store.records[id].stored.value.block)
  {
    if n > 0 {
      NoErrorsInSum(c, n - 1);
      if c.IsPublished(n - 1) { ErrorsAreCounted(Rows(c.store.records[n - 1].stored.value.block), c.config.policy); }
    }
  }

  lemma NoPendingIsAllTerminal(c: Coordinator)
    requires c.StoreOk() && c.NoPending()
    ensures |c.store.records| == c.store.published + c.store.failed
  {
    var published, failed := c.store.InState(Published), c.store.InState(State.Failed);
    assert published !! failed;
    forall id | 0 <= id < |c.store.records| ensures id in published + failed { assert !c.IsPending(id); }
    CountBelow(published + failed, |c.store.records|);
  }

  lemma FailedIsInState(c: Coordinator)
    requires c.StoreOk()
    ensures c.store.failed == 0 <==> forall id :: 0 <= id < |c.store.records| ==> c.store.records[id].state != State.Failed
  {
    if c.store.failed == 0 {
      forall id | 0 <= id < |c.store.records| ensures c.store.records[id].state != State.Failed {
        assert id !in c.store.InState(State.Failed);
      }
    } else {
      var id :| id in c.store.InState(State.Failed);
    }
  }

  ghost predicate ReadsCleanly(config: Config, path: Path) {
    var found := At(config.root, path);
    found.Some? && found.value.Listing? && NoRowErrors(found.value.entries)
  }

  /** A finished run reports itself complete exactly when every directory of the closure could be read without any error. */
  lemma CompleteIsClean(c: Coordinator)
    requires c.Inv() && c.mode == Finished(Completed)
    ensures IsComplete(c)
            <==> forall path :: Reachable(c.config.root, c.config.policy, path) ==> ReadsCleanly(c.config, path)
  {
    NoPendingIsAllTerminal(c);
    FailedIsInState(c);
    forall id | 0 <= id < |c.store.records| ensures id in c.merged <==> c.IsPublished(id) {
      PublishedIsCounted(c, id);
    }
    NoErrorsInSum(c, |c.store.records|);
    if IsComplete(c) {
      forall path | Reachable(c.config.root, c.config.policy, path) ensures ReadsCleanly(c.config, path) {
        ReachableIsVisited(c, path);
        var id: nat :| c.store.HasPath(id, path);
        CleanRecord(c, id);
      }
    } else if forall path :: Reachable(c.config.root, c.config.policy, path) ==> ReadsCleanly(c.config, path) {
      forall id | 0 <= id < |c.store.records|
        ensures c.store.records[id].state != State.Failed
        ensures c.IsPublished(id) ==> NoRowErrors(c.store.records[id].stored.value.block)
      {
        assert c.MatchesOracle(id);
        assert ReadsCleanly(c.config, c.store.Path(id));
      }
    }
  }

  lemma CleanRecord(c: Coordinator, id: nat)
    requires c.StoreOk() && c.NoPending() && id < |c.store.records| && c.store.records[id].state != State.Failed
    requires c.IsPublished(id) ==> NoRowErrors(c.store.records[id].stored.value.block)
    ensures ReadsCleanly(c.config, c.store.Path(id))
  {
    assert !c.IsPending(id) && c.store.ValidRecord(id) && c.MatchesOracle(id);
  }

  // -- Equal reports ----------------------------------------------------------------------------------

  datatype Quantity =
    | NodeCount | FailureCount | EntryCount | DirectoryCount | RegularCount | SymlinkCount | OtherCount
    | MetadataErrorCount | SkippedMountCount | Mapped(key: ReportMaps.Key)

  /** A quantity of the final report. */
  function Reported(c: Coordinator, quantity: Quantity): nat {
    match quantity
    case NodeCount => |c.store.records|
    case FailureCount => c.store.failed
    case EntryCount => c.counters.entries
    case DirectoryCount => c.counters.directories
    case RegularCount => c.counters.regularFiles
    case SymlinkCount => c.counters.symlinks
    case OtherCount => c.counters.other
    case MetadataErrorCount => c.counters.metadataErrors
    case SkippedMountCount => c.counters.skippedMounts
    case Mapped(key) => ReportMaps.Counted(c.counters, key)
  }

  /** What one directory of the closure adds to it. */
  function Share(config: Config, quantity: Quantity, outcome: Outcome): nat {
    if outcome.found.Unreadable? then
      match quantity
      case NodeCount => 1
      case FailureCount => 1
      case Mapped(Reason(reason)) => if outcome.found.reason == reason then 1 else 0
      case Mapped(Category(category)) => if config.classify(outcome.found.reason) == Recoverable(category) then 1 else 0
      case _ => 0
    else
      var tally := CountRows(Rows(outcome.found.entries), config.policy);
      match quantity
      case NodeCount => 1
      case FailureCount => 0
      case EntryCount => tally.entries
      case DirectoryCount => tally.directories
      case RegularCount => tally.regularFiles
      case SymlinkCount => tally.symlinks
      case OtherCount => tally.other
      case MetadataErrorCount => tally.metadataErrors
      case SkippedMountCount => tally.skippedMounts
      case Mapped(ErrorNumber(error)) => CountOf(tally.errorCounts, error)
      case Mapped(_) => 0
  }

  ghost function SharesOf(config: Config, quantity: Quantity, outcomes: set<Outcome>): nat {
    if outcomes == {} then 0
    else
      var outcome :| outcome in outcomes;
      Share(config, quantity, outcome) + SharesOf(config, quantity, outcomes - {outcome})
  }

  lemma {:induction false} SharesPickAny(config: Config, quantity: Quantity, outcomes: set<Outcome>, outcome: Outcome)
    requires outcome in outcomes
    ensures SharesOf(config, quantity, outcomes)
            == Share(config, quantity, outcome) + SharesOf(config, quantity, outcomes - {outcome})
    decreases |outcomes|
  {
    var first :| first in outcomes
                 && SharesOf(config, quantity, outcomes)
                    == Share(config, quantity, first) + SharesOf(config, quantity, outcomes - {first});
    if first != outcome {
      SharesPickAny(config, quantity, outcomes - {first}, outcome);
      SharesPickAny(config, quantity, outcomes - {outcome}, first);
      assert outcomes - {first} - {outcome} == outcomes - {outcome} - {first};
    }
  }

  ghost function OutcomesBelow(c: Coordinator, n: nat): set<Outcome>
    requires c.StoreOk() && n <= |c.store.records|
  {
    if n == 0 then {} else OutcomesBelow(c, n - 1) + {OutcomeOf(c, n - 1)}
  }

  lemma {:induction false} OutcomesAreBelow(c: Coordinator, n: nat, outcome: Outcome)
    requires c.StoreOk() && n <= |c.store.records|
    ensures outcome in OutcomesBelow(c, n) <==> exists id :: 0 <= id < n && OutcomeOf(c, id) == outcome
  {
    if n > 0 { OutcomesAreBelow(c, n - 1, outcome); }
  }

  /** Paths tell directories apart, so no two IDs share an outcome. */
  lemma NextOutcomeIsNew(c: Coordinator, n: nat)
    requires c.StoreOk() && n < |c.store.records|
    ensures OutcomeOf(c, n) !in OutcomesBelow(c, n)
  {
    OutcomesAreBelow(c, n, OutcomeOf(c, n));
    forall id | 0 <= id < n ensures OutcomeOf(c, id) != OutcomeOf(c, n) {
      if c.store.Path(id) == c.store.Path(n) { c.store.PathIsInjective(id, n); }
    }
  }

  ghost function SharesBelow(c: Coordinator, quantity: Quantity, n: nat): nat
    requires c.StoreOk() && n <= |c.store.records|
  {
    if n == 0 then 0
    else SharesBelow(c, quantity, n - 1) + Share(c.config, quantity, OutcomeOf(c, n - 1))
  }

  lemma {:induction false} SharesByIdOrBySet(c: Coordinator, quantity: Quantity, n: nat)
    requires c.StoreOk() && n <= |c.store.records|
    ensures SharesBelow(c, quantity, n) == SharesOf(c.config, quantity, OutcomesBelow(c, n))
  {
    if n > 0 {
      SharesByIdOrBySet(c, quantity, n - 1);
      NextOutcomeIsNew(c, n - 1);
      SharesPickAny(c.config, quantity, OutcomesBelow(c, n), OutcomeOf(c, n - 1));
      assert OutcomesBelow(c, n) - {OutcomeOf(c, n - 1)} == OutcomesBelow(c, n - 1);
    }
  }

  function TotalOf(totals: Totals, quantity: Quantity): nat {
    match quantity
    case NodeCount => 0
    case FailureCount => 0
    case EntryCount => totals.entries
    case DirectoryCount => totals.directories
    case RegularCount => totals.regularFiles
    case SymlinkCount => totals.symlinks
    case OtherCount => totals.other
    case MetadataErrorCount => totals.metadataErrors
    case SkippedMountCount => totals.skippedMounts
    case Mapped(_) => 0
  }

  lemma {:induction false} SharesAreSummed(c: Coordinator, quantity: Quantity, n: nat)
    requires c.StoreOk() && n <= |c.store.records|
    requires forall id :: 0 <= id < n ==> (id in c.merged <==> c.IsPublished(id))
    ensures quantity.NodeCount? ==> SharesBelow(c, quantity, n) == n
    ensures !quantity.NodeCount? && !quantity.FailureCount? && !quantity.Mapped? ==>
              SharesBelow(c, quantity, n) == TotalOf(c.SumOver(c.merged, n), quantity)
  {
    if n > 0 {
      SharesAreSummed(c, quantity, n - 1);
      ShareIsCounted(c, quantity, n - 1);
    }
  }

  /** One directory adds its share to the totals. */
  lemma ShareIsCounted(c: Coordinator, quantity: Quantity, id: nat)
    requires c.StoreOk() && id < |c.store.records| && (id in c.merged <==> c.IsPublished(id))
    ensures var share := Share(c.config, quantity, OutcomeOf(c, id));
            && (quantity.NodeCount? ==> share == 1)
            && (!quantity.NodeCount? && !quantity.FailureCount? && !quantity.Mapped? ==>
                  TotalOf(c.SumOver(c.merged, id + 1), quantity) == TotalOf(c.SumOver(c.merged, id), quantity) + share)
  {
  }

  ghost function FailedBelow(c: Coordinator, n: nat): set<nat>
    requires n <= |c.store.records|
  {
    set id | 0 <= id < n && c.store.records[id].state == State.Failed
  }

  lemma {:induction false} FailuresAreSummed(c: Coordinator, n: nat)
    requires c.StoreOk() && c.NoPending() && n <= |c.store.records|
    ensures SharesBelow(c, FailureCount, n) == |FailedBelow(c, n)|
  {
    if n > 0 {
      FailuresAreSummed(c, n - 1);
      assert !c.IsPending(n - 1) && c.store.ValidRecord(n - 1);
      assert FailedBelow(c, n)
             == if c.IsPublished(n - 1) then FailedBelow(c, n - 1) else FailedBelow(c, n - 1) + {n - 1};
    }
  }

  /** A failed directory's outcome is its reason, and a merged one's is its rows. */
  lemma MappedShare(c: Coordinator, key: ReportMaps.Key, id: nat)
    requires c.StoreOk() && c.NoPending() && id < |c.store.records| && (id in c.merged <==> c.IsPublished(id))
    ensures Share(c.config, Mapped(key), OutcomeOf(c, id)) == ReportMaps.Part(c, key, id)
  {
    assert !c.IsPending(id) && c.store.ValidRecord(id);
  }

  lemma {:induction false} MappedIsSummed(c: Coordinator, key: ReportMaps.Key, n: nat)
    requires c.StoreOk() && c.NoPending() && n <= |c.store.records|
    requires forall id :: 0 <= id < n ==> (id in c.merged <==> c.IsPublished(id))
    ensures SharesBelow(c, Mapped(key), n) == ReportMaps.PartsBelow(c, key, n)
  {
    if n > 0 {
      MappedIsSummed(c, key, n - 1);
      MappedShare(c, key, n - 1);
    }
  }

  lemma ReportedIsSummed(c: Coordinator, quantity: Quantity)
    requires Succeeded(c) && ReportMaps.MapsOk(c)
    ensures Reported(c, quantity) == SharesBelow(c, quantity, |c.store.records|)
  {
    forall id | 0 <= id < |c.store.records| ensures id in c.merged <==> c.IsPublished(id) {
      PublishedIsCounted(c, id);
    }
    match quantity
    case Mapped(key) =>
      assert ReportMaps.KeyOk(c, key);
      MappedIsSummed(c, key, |c.store.records|);
    case FailureCount =>
      FailuresAreSummed(c, |c.store.records|);
      assert FailedBelow(c, |c.store.records|) == c.store.InState(State.Failed);
    case _ =>
      SharesAreSummed(c, quantity, |c.store.records|);
  }

  predicate ClassedAlike(config: Config, other: Config, reason: nat) {
    config.classify(reason) == other.classify(reason)
  }

  ghost predicate SameClasses(config: Config, other: Config) {
    forall reason :: ClassedAlike(config, other, reason)
  }

  /** Only the categories depend on how reasons are classified. */
  ghost predicate Compares(quantity: Quantity, config: Config, other: Config) {
    quantity.Mapped? && quantity.key.Category? ==> SameClasses(config, other)
  }

  lemma {:induction false} SharesAlike(config: Config, other: Config, quantity: Quantity, outcomes: set<Outcome>)
    requires config.policy == other.policy && Compares(quantity, config, other)
    ensures SharesOf(config, quantity, outcomes) == SharesOf(other, quantity, outcomes)
    decreases |outcomes|
  {
    if outcomes != {} {
      var outcome :| outcome in outcomes;
      SharesPickAny(config, quantity, outcomes, outcome);
      SharesPickAny(other, quantity, outcomes, outcome);
      SharesAlike(config, other, quantity, outcomes - {outcome});
      if outcome.found.Unreadable? { assert SameClasses(config, other) ==> ClassedAlike(config, other, outcome.found.reason); }
    }
  }

  lemma OutcomesAgree(c: Coordinator, d: Coordinator)
    requires Succeeded(c) && Succeeded(d) && c.config.root == d.config.root && c.config.policy == d.config.policy
    ensures OutcomesBelow(c, |c.store.records|) == OutcomesBelow(d, |d.store.records|)
  {
    forall outcome ensures outcome in OutcomesBelow(c, |c.store.records|) <==> outcome in OutcomesBelow(d, |d.store.records|) {
      RunsAgree(c, d, outcome);
      OutcomeIsContained(c, outcome);
      OutcomeIsContained(d, outcome);
    }
  }

  /** Two successful runs over the same filesystem report the same numbers, those of the count maps included. */
  lemma ReportsAgree(c: Coordinator, d: Coordinator, quantity: Quantity)
    requires Succeeded(c) && Succeeded(d) && c.config.root == d.config.root && c.config.policy == d.config.policy
    requires ReportMaps.MapsOk(c) && ReportMaps.MapsOk(d) && Compares(quantity, c.config, d.config)
    ensures Reported(c, quantity) == Reported(d, quantity)
  {
    ReportedIsSummed(c, quantity);
    ReportedIsSummed(d, quantity);
    SharesByIdOrBySet(c, quantity, |c.store.records|);
    SharesByIdOrBySet(d, quantity, |d.store.records|);
    OutcomesAgree(c, d);
    SharesAlike(c.config, d.config, quantity, OutcomesBelow(c, |c.store.records|));
  }

  lemma SameCounts<K(!new)>(left: Counts<K>, right: Counts<K>)
    requires ReportMaps.NoZeros(left) && ReportMaps.NoZeros(right) && forall key :: CountOf(left, key) == CountOf(right, key)
    ensures left == right
  {
    forall key ensures key in left <==> key in right { assert CountOf(left, key) == CountOf(right, key); }
    forall key | key in left ensures left[key] == right[key] { assert CountOf(left, key) == CountOf(right, key); }
  }

  /** So their reports have the same count maps, entry by entry; categories only if both runs sort reasons into the same ones. */
  lemma MapsAgree(c: Coordinator, d: Coordinator)
    requires Succeeded(c) && Succeeded(d) && c.config.root == d.config.root && c.config.policy == d.config.policy
    requires ReportMaps.MapsOk(c) && ReportMaps.MapsOk(d)
    ensures c.counters.errorCounts == d.counters.errorCounts && c.counters.failureReasons == d.counters.failureReasons
    ensures SameClasses(c.config, d.config) ==> c.counters == d.counters
  {
    forall error: nat ensures CountOf(c.counters.errorCounts, error) == CountOf(d.counters.errorCounts, error) {
      ReportsAgree(c, d, Mapped(ReportMaps.ErrorNumber(error)));
    }
    SameCounts(c.counters.errorCounts, d.counters.errorCounts);
    forall reason: nat ensures CountOf(c.counters.failureReasons, reason) == CountOf(d.counters.failureReasons, reason) {
      ReportsAgree(c, d, Mapped(ReportMaps.Reason(reason)));
    }
    SameCounts(c.counters.failureReasons, d.counters.failureReasons);
    if SameClasses(c.config, d.config) { AllAgree(c, d); }
  }

  lemma TotalsAgree(c: Coordinator, d: Coordinator)
    requires forall quantity :: Compares(quantity, c.config, d.config) ==> Reported(c, quantity) == Reported(d, quantity)
    ensures var maps := c.counters;
            c.counters == d.counters.(errorCounts := maps.errorCounts, failureReasons := maps.failureReasons,
                                      failureCategories := maps.failureCategories)
  {
    assert Reported(c, EntryCount) == Reported(d, EntryCount) && Reported(c, DirectoryCount) == Reported(d, DirectoryCount);
    assert Reported(c, RegularCount) == Reported(d, RegularCount) && Reported(c, SymlinkCount) == Reported(d, SymlinkCount);
    assert Reported(c, OtherCount) == Reported(d, OtherCount) && Reported(c, SkippedMountCount) == Reported(d, SkippedMountCount);
    assert Reported(c, MetadataErrorCount) == Reported(d, MetadataErrorCount);
  }

  lemma AllAgree(c: Coordinator, d: Coordinator)
    requires Succeeded(c) && Succeeded(d) && c.config.root == d.config.root && c.config.policy == d.config.policy
    requires ReportMaps.MapsOk(c) && ReportMaps.MapsOk(d) && SameClasses(c.config, d.config)
    requires c.counters.errorCounts == d.counters.errorCounts && c.counters.failureReasons == d.counters.failureReasons
    ensures c.counters == d.counters
  {
    forall category: nat ensures CountOf(c.counters.failureCategories, category) == CountOf(d.counters.failureCategories, category) {
      ReportsAgree(c, d, Mapped(ReportMaps.Category(category)));
    }
    SameCounts(c.counters.failureCategories, d.counters.failureCategories);
    forall quantity: Quantity | Compares(quantity, c.config, d.config) ensures Reported(c, quantity) == Reported(d, quantity) {
      ReportsAgree(c, d, quantity);
    }
    TotalsAgree(c, d);
  }

  lemma OutcomeIsContained(c: Coordinator, outcome: Outcome)
    requires Succeeded(c)
    ensures outcome in OutcomesBelow(c, |c.store.records|) <==> Contains(c, outcome)
  {
    OutcomesAreBelow(c, |c.store.records|, outcome);
    if outcome in OutcomesBelow(c, |c.store.records|) {
      var id :| 0 <= id < |c.store.records| && OutcomeOf(c, id) == outcome;
      assert !c.IsPending(id);
      assert HasOutcome(c, id, outcome);
    }
    if Contains(c, outcome) {
      var id: nat :| HasOutcome(c, id, outcome);
      assert 0 <= id < |c.store.records| && OutcomeOf(c, id) == outcome;
    }
  }

  /**
    Order independence, from the start: whatever ranking function, rank data, number of workers and sequence
    of events each of two runs had, if both succeed they hold the same directories and report the same numbers
    and count maps.
   */
  lemma SuccessfulRunsAgree(
      config: Config, other: Config, ranker: Ranker, otherRanker: Ranker, data: map<Term, Term>, otherData: map<Term, Term>,
      n: nat, m: nat, events: seq<Event>, otherEvents: seq<Event>)
    requires config.root == other.root && config.policy == other.policy && n > 0 && m > 0
    requires Schedulers.Tracked(ranker) && Schedulers.Tracked(otherRanker)
    requires Start(config, ranker, data, n).Ok? && Start(other, otherRanker, otherData, m).Ok?
    requires Run(Start(config, ranker, data, n).value, events).mode == Finished(Completed)
    requires Run(Start(other, otherRanker, otherData, m).value, otherEvents).mode == Finished(Completed)
    ensures var c, d := Run(Start(config, ranker, data, n).value, events),
                        Run(Start(other, otherRanker, otherData, m).value, otherEvents);
            && (forall outcome :: Contains(c, outcome) <==> Contains(d, outcome))
            && (forall outcome :: Contains(c, outcome) <==> InClosure(config, outcome))
            && (forall quantity :: Compares(quantity, config, other) ==> Reported(c, quantity) == Reported(d, quantity))
            && c.counters.errorCounts == d.counters.errorCounts && c.counters.failureReasons == d.counters.failureReasons
            && (SameClasses(config, other) ==> c.counters == d.counters)
  {
    var c := RunIsReachable(config, ranker, data, n, events);
    var d := RunIsReachable(other, otherRanker, otherData, m, otherEvents);
    forall outcome ensures Contains(c, outcome) <==> Contains(d, outcome)
                   ensures Contains(c, outcome) <==> InClosure(config, outcome)
    {
      RunsAgree(c, d, outcome);
      SuccessIsTheClosure(c, outcome);
    }
    forall quantity | Compares(quantity, config, other) ensures Reported(c, quantity) == Reported(d, quantity) {
      ReportsAgree(c, d, quantity);
    }
    MapsAgree(c, d);
  }

  lemma RunIsReachable(config: Config, ranker: Ranker, data: map<Term, Term>, n: nat, events: seq<Event>)
    returns (c: Coordinator)
    requires n > 0 && Schedulers.Tracked(ranker) && Start(config, ranker, data, n).Ok?
    ensures c == Run(Start(config, ranker, data, n).value, events) && c.Inv() && c.config == config
    ensures ReportMaps.MapsOk(c)
  {
    var first := Start(config, ranker, data, n).value;
    StartInv(config, ranker, data, n);
    EveryReachableStateInv(first, events);
    ReportMaps.StartMaps(config, ranker, data, n);
    ReportMaps.EveryRunKeepsMaps(first, events);
    ConfigIsFixed(first, events);
    StartConfig(config, ranker, data, n);
    c := Run(first, events);
  }

  lemma StartConfig(config: Config, ranker: Ranker, data: map<Term, Term>, n: nat)
    requires Start(config, ranker, data, n).Ok?
    ensures Start(config, ranker, data, n).value.config == config
  {
    var put := Schedulers.Scheduler<nat, Task, Term, Term>.New(ranker, data).PutTask(ROOT, ROOT_TASK);
    DispatchConfig(Prepared(config, put.value, n));
  }
}
