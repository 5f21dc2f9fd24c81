/** From the coordinator to the window: what the layers guarantee one another. */
module Pipelines {
  import opened Scan
  import opened StoreModel
  import Coordinators
  import CoordinatorRuns
  import CoordinatorSteps
  import Drains

  // -- Reading a running coordinator ------------------------------------------------------------------

  /** What the coordinator does before a journal page is read, and between that and the status request. */
  datatype Sample = Sample(before: seq<CoordinatorRuns.Event>, due: bool, between: seq<CoordinatorRuns.Event>)

  ghost function TurnOf(c: Coordinators.Coordinator, sample: Sample): Drains.Turn {
    var first := CoordinatorRuns.Run(c, sample.before);
    var second := CoordinatorRuns.Run(first, sample.between);
    Drains.Turn(first.store.journal, sample.due, second.store.journal, second.mode.Finished?)
  }

  ghost function StateAfter(c: Coordinators.Coordinator, sample: Sample): Coordinators.Coordinator {
    CoordinatorRuns.Run(CoordinatorRuns.Run(c, sample.before), sample.between)
  }

  ghost function TurnsOf(c: Coordinators.Coordinator, samples: seq<Sample>): (turns: seq<Drains.Turn>)
    ensures |turns| == |samples|
    decreases |samples|
  {
    if samples == [] then [] else [TurnOf(c, samples[0])] + TurnsOf(StateAfter(c, samples[0]), samples[1..])
  }

  lemma NextJournalGrows(c: Coordinators.Coordinator, event: CoordinatorRuns.Event)
    ensures c.store.journal <= CoordinatorRuns.Next(c, event).store.journal
  {
    if CoordinatorRuns.Enabled(c, event) {
      match event
      case Runs(w, memory) => RunsJournalGrows(c, w, memory);
      case Delivers(w, memory) => DeliverJournalGrows(c, w, memory);
      case ChangesRanks(values) => CoordinatorRuns.RanksKeepStore(c, values);
      case _ =>
    }
  }

  lemma RunsJournalGrows(c: Coordinators.Coordinator, w: nat, memory: bool)
    requires c.CanRun(w)
    ensures c.store.journal <= c.WorkerRuns(w, memory).store.journal
  {
  }

  lemma HandledJournalGrows(c: Coordinators.Coordinator, task: Coordinators.Task, result: Coordinators.WorkerResult, memory: bool)
    ensures c.store.journal <= c.HandleResult(task, result, memory).store.journal
    ensures c.store.journal <= c.SettleResult(task, result, memory).store.journal
  {
  }

  lemma DeliverJournalGrows(c: Coordinators.Coordinator, w: nat, memory: bool)
    requires c.CanDeliver(w)
    ensures c.store.journal <= c.Deliver(w, memory).store.journal
  {
    CoordinatorRuns.DeliverStore(c, w, memory);
    if CoordinatorSteps.HasResult(c, w) && w in c.inFlight {
      var task, result := c.inFlight[w], c.workers[w].mail[0].result;
      HandledJournalGrows(CoordinatorSteps.Freed(c, w), task, result, memory);
      HandledJournalGrows(c.Taken(w), task, result, memory);
    }
  }

  lemma {:induction false} RunJournalGrows(c: Coordinators.Coordinator, events: seq<CoordinatorRuns.Event>)
    ensures c.store.journal <= CoordinatorRuns.Run(c, events).store.journal
    decreases |events|
  {
    if events != [] {
      NextJournalGrows(c, events[0]);
      RunJournalGrows(CoordinatorRuns.Next(c, events[0]), events[1..]);
    }
  }

  /** A window that reads pages and statuses of a running coordinator sees turns that follow one another. */
  lemma {:induction false} SampledTurnsFollow(c: Coordinators.Coordinator, samples: seq<Sample>)
    requires c.Inv()
    ensures Drains.Follows(TurnsOf(c, samples))
    decreases |samples|
  {
    if samples != [] {
      var sample := samples[0];
      var first := CoordinatorRuns.Run(c, sample.before);
      var second := StateAfter(c, sample);
      CoordinatorRuns.EveryReachableStateInv(c, sample.before);
      CoordinatorRuns.EveryReachableStateInv(first, sample.between);
      RunJournalGrows(first, sample.between);
      SampledTurnsFollow(second, samples[1..]);
      if |samples| > 1 { NextTurnContinues(second, samples[1]); }
      OneMoreFollows(TurnOf(c, sample), TurnsOf(second, samples[1..]));
    }
  }

  lemma OneMoreFollows(turn: Drains.Turn, rest: seq<Drains.Turn>)
    requires Drains.Follows(rest) && turn.journal <= turn.later
    requires rest != [] ==> turn.later <= rest[0].journal
    requires rest != [] && turn.finished ==> rest[0].finished && rest[0].later == turn.later
    ensures Drains.Follows([turn] + rest)
  {
    var turns := [turn] + rest;
    forall i | 0 <= i < |turns| ensures Drains.Grows(turns, i) {
      if i > 0 { assert Drains.Grows(rest, i - 1); }
    }
    forall i | 0 <= i < |turns| - 1 ensures Drains.Continues(turns, i) {
      if i > 0 { assert Drains.Continues(rest, i - 1); }
    }
  }

  /** A finished coordinator's journal stands still; any other only grows. */
  lemma NextTurnContinues(c: Coordinators.Coordinator, sample: Sample)
    requires c.Inv()
    ensures var turn := TurnOf(c, sample);
            c.store.journal <= turn.journal && (c.mode.Finished? ==> turn.finished && turn.later == c.store.journal)
  {
    RunJournalGrows(c, sample.before);
    if c.mode.Finished? {
      CoordinatorRuns.FinishedIsFinal(c, sample.before);
      CoordinatorRuns.EveryReachableStateInv(c, sample.before);
      CoordinatorRuns.FinishedIsFinal(CoordinatorRuns.Run(c, sample.before), sample.between);
    }
  }
}
