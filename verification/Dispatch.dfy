/** Which directories go to which workers, and what a live change of rank data does to that. */
module Dispatches {
  import opened Coordinators
  import opened CoordinatorRuns
  import opened CoordinatorSteps
  import opened Options
  import opened Schedulers
  import opened StoreModel
  import opened Terms
  import Scan

  type Scheduled = seq<Popped<nat, Task>>

  /** The first idle workers hold the popped tasks in their order; all other tasks in flight stay where they are. */
  ghost predicate HandsOut(c: Coordinator, after: Coordinator, popped: Scheduled) {
    && |popped| <= |c.idle| && after.idle == c.idle[|popped|..]
    && (forall k :: 0 <= k < |popped| ==> HasTask(after, c.idle[k], popped[k].data))
    && (forall w :: w in c.inFlight ==> HasTask(after, w, c.inFlight[w]))
    && (forall w :: w in after.inFlight ==> w in c.inFlight || w in c.idle[..|popped|])
  }

  predicate HasTask(c: Coordinator, w: nat, task: Task) {
    w in c.inFlight && c.inFlight[w] == task
  }

  lemma HandsOutFirst(c: Coordinator, next: Coordinator, after: Coordinator, first: Popped<nat, Task>, others: Scheduled)
    requires c.idle != [] && next.idle == c.idle[1..] && next.inFlight == c.inFlight[c.idle[0] := first.data]
    requires c.idle[0] !in c.inFlight && HandsOut(next, after, others)
    ensures HandsOut(c, after, [first] + others)
  {
    var popped := [first] + others;
    assert c.idle[0] in c.idle && c.idle[0] in next.inFlight;
    forall k | 0 <= k < |popped| ensures HasTask(after, c.idle[k], popped[k].data) {
      if k == 0 {
        assert HasTask(after, c.idle[0], next.inFlight[c.idle[0]]);
      } else {
        assert HasTask(after, next.idle[k - 1], others[k - 1].data);
      }
    }
    forall w | w in c.inFlight ensures HasTask(after, w, c.inFlight[w]) {
      assert HasTask(after, w, next.inFlight[w]);
    }
    forall w | w in after.inFlight ensures w in c.inFlight || w in c.idle[..|popped|] {
      if w in next.idle[..|others|] {
        var k :| 0 <= k < |others| && next.idle[..|others|][k] == w;
        assert c.idle[..|popped|][k + 1] == w;
      } else if w !in c.inFlight {
        assert w == c.idle[..|popped|][0];
      }
    }
  }

  lemma HandsOutNothing(c: Coordinator)
    ensures HandsOut(c, c, [])
  {
    assert c.idle[0..] == c.idle;
  }

  lemma PopsOneMore(s: RankScheduler, n: nat, first: Popped<nat, Task>, rest: RankScheduler)
    requires n > 0 && s.Pop() == Some((first, rest))
    ensures s.PopMany(n).0 == [first] + rest.PopMany(n - 1).0 && s.PopMany(n).1 == rest.PopMany(n - 1).1
  {
  }

  lemma PopsNothing(s: RankScheduler, n: nat)
    requires s.Inv() && (n == 0 || s.queue == [])
    ensures s.PopMany(n) == ([], s)
  {
    s.PopInv();
  }

  /** Idle workers are known, each is listed once, and none has a task. */
  ghost predicate AreFree(c: Coordinator) {
    && Coordinator.Distinct(c.idle)
    && forall w :: w in c.idle ==> w in c.workers && w !in c.inFlight
  }

  lemma RunningAreFree(c: Coordinator)
    requires c.FlightOk() && c.PoolOk()
    ensures AreFree(c)
  {
  }

  /** The state after the first of the idle workers has its task. */
  lemma FirstHasItsTask(c: Coordinator)
    requires c.scheduler.Inv() && AreFree(c) && c.idle != [] && c.scheduler.queue != []
    ensures c.scheduler.Pop().Some? && c.idle[0] in c.workers && c.idle[0] !in c.inFlight
    ensures var next, popped := AssignFirst(c), c.scheduler.Pop().value;
            && next.scheduler.Inv() && c.Dispatch() == next.Dispatch()
            && next.scheduler == popped.1 && next.idle == c.idle[1..]
            && next.inFlight == c.inFlight[c.idle[0] := popped.0.data]
            && popped.1.queue == c.scheduler.queue[..|c.scheduler.queue| - 1]
  {
    c.scheduler.PopInv();
    assert c.idle[0] in c.idle;
  }

  lemma RestAreFree(c: Coordinator, next: Coordinator)
    requires AreFree(c) && c.idle != [] && next.idle == c.idle[1..] && next.inFlight.Keys == c.inFlight.Keys + {c.idle[0]}
    requires c.workers.Keys <= next.workers.Keys
    ensures AreFree(next)
  {
    forall w | w in next.idle ensures w in next.workers && w !in next.inFlight {
      var k :| 0 <= k < |next.idle| && next.idle[k] == w;
      assert c.idle[k + 1] == w && w in c.idle;
    }
  }

  ghost predicate DispatchesAll(c: Coordinator, after: Coordinator, popped: Scheduled, rest: RankScheduler) {
    && after.scheduler == rest && HandsOut(c, after, popped)
    && |popped| == if |c.idle| <= |c.scheduler.queue| then |c.idle| else |c.scheduler.queue|
  }

  /** Dispatching pops as many tasks as there are idle workers, in one call, and hands them out in that order. */
  lemma DispatchIsPopMany(c: Coordinator)
    requires c.Core() && c.RunningOk()
    ensures var (popped, rest) := c.scheduler.PopMany(|c.idle|);
            && c.Dispatch().scheduler == rest && HandsOut(c, c.Dispatch(), popped)
            && |popped| == if |c.idle| <= |c.scheduler.queue| then |c.idle| else |c.scheduler.queue|
  {
    RunningAreFree(c);
    DispatchPops(c);
  }

  lemma {:induction false} DispatchPops(c: Coordinator)
    requires c.scheduler.Inv() && AreFree(c)
    ensures DispatchesAll(c, c.Dispatch(), c.scheduler.PopMany(|c.idle|).0, c.scheduler.PopMany(|c.idle|).1)
    decreases |c.idle|
  {
    if c.idle == [] || c.scheduler.queue == [] {
      DispatchPopsNothing(c);
    } else {
      FirstLeavesFree(c);
      DispatchPops(AssignFirst(c));
      DispatchPopsFirst(c);
    }
  }

  lemma DispatchPopsNothing(c: Coordinator)
    requires c.scheduler.Inv() && (c.idle == [] || c.scheduler.queue == [])
    ensures DispatchesAll(c, c.Dispatch(), c.scheduler.PopMany(|c.idle|).0, c.scheduler.PopMany(|c.idle|).1)
  {
    PopsNothing(c.scheduler, |c.idle|);
    c.scheduler.PopInv();
    HandsOutNothing(c);
  }

  lemma FirstLeavesFree(c: Coordinator)
    requires c.scheduler.Inv() && AreFree(c) && c.idle != [] && c.scheduler.queue != []
    ensures c.scheduler.Pop().Some? && c.idle[0] in c.workers
    ensures AssignFirst(c).scheduler.Inv() && AreFree(AssignFirst(c)) && |AssignFirst(c).idle| < |c.idle|
  {
    FirstHasItsTask(c);
    RestAreFree(c, AssignFirst(c));
  }

  lemma DispatchPopsFirst(c: Coordinator)
    requires c.scheduler.Inv() && AreFree(c) && c.idle != [] && c.scheduler.queue != []
    requires c.scheduler.Pop().Some? && c.idle[0] in c.workers
    requires var next := AssignFirst(c);
             DispatchesAll(next, next.Dispatch(), next.scheduler.PopMany(|next.idle|).0, next.scheduler.PopMany(|next.idle|).1)
    ensures DispatchesAll(c, c.Dispatch(), c.scheduler.PopMany(|c.idle|).0, c.scheduler.PopMany(|c.idle|).1)
  {
    FirstHasItsTask(c);
    var next, first := AssignFirst(c), c.scheduler.Pop().value.0;
    NextDispatchesAll(c, next, next.Dispatch(), first, next.scheduler.PopMany(|next.idle|).0, next.scheduler.PopMany(|next.idle|).1);
    PopsOneMore(c.scheduler, |c.idle|, first, next.scheduler);
  }

  lemma NextDispatchesAll(c: Coordinator, next: Coordinator, after: Coordinator, first: Popped<nat, Task>, others: Scheduled,
                          rest: RankScheduler)
    requires c.idle != [] && next.idle == c.idle[1..] && next.inFlight == c.inFlight[c.idle[0] := first.data]
    requires c.idle[0] !in c.inFlight && |next.scheduler.queue| + 1 == |c.scheduler.queue| && DispatchesAll(next, after, others, rest)
    ensures DispatchesAll(c, after, [first] + others, rest)
  {
    HandsOutFirst(c, next, after, first, others);
  }

  // -- Live rank data -----------------------------------------------------------------------------

  lemma {:induction false} DispatchKeepsData(c: Coordinator)
    ensures c.Dispatch().scheduler.data == c.scheduler.data && c.Dispatch().scheduler.ranker == c.scheduler.ranker
    decreases |c.idle|
  {
    if !(c.idle == [] || c.scheduler.Pop().None? || c.idle[0] !in c.workers) { DispatchKeepsData(AssignFirst(c)); }
  }

  /** What a coordinator says of its ranks, and what a change of rank data must leave. */
  ghost predicate RanksAre(c: Coordinator, ranker: Ranker, data: map<Term, Term>) {
    && c.scheduler.data == data
    && forall id :: id in c.scheduler.tasks ==>
         ranker(c.scheduler.tasks[id].data, data) == Ranked(c.scheduler.tasks[id].rank, c.scheduler.tasks[id].dependencies)
  }

  /**
    New rank data take effect at once, or not at all: if the ranking function raises for a queued task nothing has
    changed, and otherwise the new values are in place, every queued task has its new rank, and idle workers get
    the highest of these.
   */
  lemma RankDataTakeEffect(c: Coordinator, values: map<Term, Term>)
    requires c.Inv() && c.mode.Running?
    ensures var after, ranker, data := c.PutRankData(values), c.scheduler.ranker, c.scheduler.data + values;
            if exists id :: id in c.scheduler.tasks && ranker(c.scheduler.tasks[id].data, data).Raised? then after == c
            else
              && RanksAre(after, ranker, data)
              && exists reranked: RankScheduler ::
                   && c.scheduler.IsRecomputed(data, reranked)
                   && after == c.(scheduler := reranked).DispatchAndFinish()
                   && HandsOut(c, after, reranked.PopMany(|c.idle|).0)
  {
    c.scheduler.PutDataRecomputes(values);
    if c.scheduler.PutData(values).Ok? {
      var next := c.(scheduler := c.scheduler.PutData(values).value);
      Reranked(c, next);
      DispatchKeeps(next);
      DispatchKeepsData(next);
      DispatchIsPopMany(next);
      RunsOn(next);
      var after := next.Dispatch();
      forall id | id in after.scheduler.tasks
        ensures c.scheduler.ranker(after.scheduler.tasks[id].data, c.scheduler.data + values)
                == Ranked(after.scheduler.tasks[id].rank, after.scheduler.tasks[id].dependencies)
      {
        assert after.scheduler.FreshTask(id);
      }
      assert HandsOut(c, after, next.scheduler.PopMany(|c.idle|).0);
    }
  }

  lemma Reranked(c: Coordinator, next: Coordinator)
    requires c.Inv() && c.mode.Running? && next == c.(scheduler := next.scheduler) && next.scheduler.Inv()
    requires c.scheduler.IsRecomputed(next.scheduler.data, next.scheduler)
    ensures next.Core() && next.RunningOk() && next.LossesInFlight()
  {
    c.SameCore(next);
    RerankMovesNothing(c, next);
    assert forall id :: c.InFlight(id) == next.InFlight(id);
  }

  /** With a task in flight the run goes on. */
  lemma GoesOn(c: Coordinator, w: nat)
    requires c.mode.Running? && w in c.Dispatch().inFlight
    ensures c.DispatchAndFinish() == c.Dispatch()
  {
  }

  lemma RunsOn(c: Coordinator)
    requires c.Core() && c.RunningOk() && c.mode.Running? && c.inFlight != map[]
    ensures c.DispatchAndFinish() == c.Dispatch()
  {
    DispatchIsPopMany(c);
    var w :| w in c.inFlight;
    assert HasTask(c.Dispatch(), w, c.inFlight[w]);
    GoesOn(c, w);
  }

  // -- The pool at the start ----------------------------------------------------------------------

  /** A run starts with as many workers as asked for, all alive, and the root directory with the one started last. */
  lemma StartsWithAllWorkers(config: Config, ranker: Ranker, rankData: map<Term, Term>, n: nat)
    requires n > 0 && Tracked(ranker)
    ensures Start(config, ranker, rankData, n).RankError? <==> ranker(ROOT_TASK, rankData).Raised?
    ensures Start(config, ranker, rankData, n).Ok? ==>
              var c := Start(config, ranker, rankData, n).value;
              && (forall w: nat :: w in c.workers <==> w < n) && (forall w :: w in c.workers ==> c.workers[w].alive)
              && HasTask(c, n - 1, ROOT_TASK) && |c.idle| == n - 1 && c.scheduler.data == rankData && c.mode == Running
  {
    if Start(config, ranker, rankData, n).Ok? {
      var scheduler := Scheduler<nat, Task, Term, Term>.New(ranker, rankData).PutTask(ROOT, ROOT_TASK).value;
      StartedScheduler(ranker, rankData, scheduler);
      RootIsHandedOut(Prepared(config, scheduler, n), n);
    }
  }

  lemma RootIsHandedOut(c: Coordinator, n: nat)
    requires n > 0 && c == Prepared(c.config, c.scheduler, n) && c.scheduler.Inv()
    requires c.scheduler.tasks.Keys == {ROOT} && c.scheduler.tasks[ROOT].data == ROOT_TASK
    requires |c.scheduler.queue| == 1 && c.scheduler.queue[0].1 == ROOT
    ensures var after := c.DispatchAndFinish();
            && (forall w: nat :: w in after.workers <==> w < n) && (forall w :: w in after.workers ==> after.workers[w].alive)
            && HasTask(after, n - 1, ROOT_TASK) && |after.idle| == n - 1 && after.scheduler.data == c.scheduler.data
            && after.mode == Running
  {
    PreparedPool(c.config, c.scheduler, n);
    DispatchKeepsData(c);
    DispatchKeepsWorkers(c);
    RootGoesFirst(c, n);
    GoesOn(c, n - 1);
  }

  lemma RootGoesFirst(c: Coordinator, n: nat)
    requires n > 0 && c.idle == IdleWorkers(n) && c.scheduler.Inv() && AreFree(c)
    requires |c.scheduler.queue| == 1 && c.scheduler.queue[0].1 == ROOT && c.scheduler.tasks.Keys == {ROOT}
    requires c.scheduler.tasks[ROOT].data == ROOT_TASK
    ensures HasTask(c.Dispatch(), n - 1, ROOT_TASK) && c.Dispatch().idle == c.idle[1..]
  {
    FirstHasItsTask(c);
    c.scheduler.PopInv();
    AssignFirst(c).scheduler.PopInv();
  }

  lemma StartedScheduler(ranker: Ranker, rankData: map<Term, Term>, scheduler: RankScheduler)
    requires Tracked(ranker)
    requires Scheduler<nat, Task, Term, Term>.New(ranker, rankData).PutTask(ROOT, ROOT_TASK) == Ok(scheduler)
    ensures scheduler.Inv() && scheduler.tasks.Keys == {ROOT} && scheduler.tasks[ROOT].data == ROOT_TASK
    ensures scheduler.data == rankData && |scheduler.queue| == 1 && scheduler.queue[0].1 == ROOT
  {
    var empty := Scheduler<nat, Task, Term, Term>.New(ranker, rankData);
    empty.NewInv();
    var evaluation := ranker(ROOT_TASK, rankData);
    empty.PutEvaluatedTaskInv(ROOT, ROOT_TASK, evaluation.rank, evaluation.keys);
  }

  lemma {:induction false} DispatchKeepsWorkers(c: Coordinator)
    ensures var after := c.Dispatch();
            after.mode == c.mode && after.workers.Keys == c.workers.Keys
            && forall w :: w in c.workers ==> after.workers[w].alive == c.workers[w].alive
    decreases |c.idle|
  {
    if !(c.idle == [] || c.scheduler.Pop().None? || c.idle[0] !in c.workers) { DispatchKeepsWorkers(AssignFirst(c)); }
  }

  // -- What aborts a run --------------------------------------------------------------------------

  /**
    The death of a worker, a fatal error or one that cannot be stored, a failed store call, and children that the
    ranking function cannot rank.
   */
  predicate Breaks(c: Coordinator, w: nat, memory: bool)
    requires c.CanDeliver(w)
  {
    match c.workers[w].mail[0]
    case Down => true
    case Reported(_, StoreError) => true
    case Reported(_, DirectoryError(reason)) => c.config.classify(reason).Fatal? || !memory
    case Reported(_, Scanned(children, _)) =>
      exists k :: 0 <= k < |children| && c.scheduler.ranker(children[k], c.scheduler.data).Raised?
  }

  lemma ScannedBreaks(c: Coordinator, task: Task, children: seq<Task>, tally: Scan.Tally, memory: bool)
    requires c.mode.Running? && c.monitored != {}
    ensures var after := c.HandleResult(task, Scanned(children, tally), memory);
            if exists k :: 0 <= k < |children| && c.scheduler.ranker(children[k], c.scheduler.data).Raised?
            then after.mode == Stopping(Aborted) else after.mode == Running
  {
    var pairs := Coordinator.Pairs(children);
    assert forall k :: 0 <= k < |pairs| ==> pairs[k].1 == children[k];
    if k :| 0 <= k < |children| && c.scheduler.ranker(children[k], c.scheduler.data).Raised? {
      assert c.scheduler.ranker(pairs[k].1, c.scheduler.data).Raised?;
    }
  }

  lemma ErrorBreaks(c: Coordinator, task: Task, reason: nat, memory: bool)
    requires c.mode.Running? && c.monitored != {} && c.IsPending(task.id)
    ensures c.HandleResult(task, DirectoryError(reason), memory).mode
            == if c.config.classify(reason).Fatal? || !memory then Stopping(Aborted) else Running
  {
  }

  lemma ResultBreaks(c: Coordinator, w: nat, memory: bool)
    requires c.Inv() && c.mode.Running? && HasResult(c, w) && w in c.inFlight
    ensures Handled(c, w, memory).mode == if Breaks(c, w, memory) then Stopping(Aborted) else Running
  {
    c.MailShape(w);
    var task, freed := c.inFlight[w], Freed(c, w);
    match c.workers[w].mail[0].result
    case Scanned(children, tally) => ScannedBreaks(freed, task, children, tally, memory);
    case DirectoryError(reason) => ErrorBreaks(freed, task, reason, memory);
    case StoreError =>
  }

  lemma NoAbortByDispatch(c: Coordinator)
    ensures c.mode.Running? ==> var mode := c.DispatchAndFinish().mode; mode == Running || mode == Stopping(Completed) || mode == Finished(Completed)
    ensures !c.mode.Running? ==> c.DispatchAndFinish() == c
  {
    DispatchKeepsWorkers(c);
  }

  /** A running coordinator aborts on exactly these messages, and then waits for the workers it still monitors. */
  lemma AbortsExactly(c: Coordinator, w: nat, memory: bool)
    requires c.Inv() && c.mode.Running? && c.CanDeliver(w)
    ensures var after := c.Deliver(w, memory);
            if Breaks(c, w, memory)
            then after.mode == (if after.monitored == {} then Finished(Aborted) else Stopping(Aborted))
            else after.mode == Running || after.mode == Stopping(Completed) || after.mode == Finished(Completed)
  {
    c.MailShape(w);
    if c.workers[w].mail[0].Down? {
      DeliveredDown(c, w, memory);
    } else {
      DeliveredResult(c, w, memory);
      ResultBreaks(c, w, memory);
      HandledFields(Freed(c, w), c.inFlight[w], c.workers[w].mail[0].result, memory);
      NoAbortByDispatch(Handled(c, w, memory));
    }
  }
}
