/** What the bridge replies, told from what it has written so far, and that the client takes it as it was written. */
module RepliesOnTheWire {
  import opened Bridges
  import opened Clients
  import opened JointRuns
  import opened Options

  // -- What an output says ----------------------------------------------------------------------------

  predicate IsStart(frame: Frame, index: nat) {
    frame.Response? && frame.outcome == Started(index)
  }

  predicate IsRelease(frame: Frame, index: nat) {
    frame.Response? && frame.outcome == Released(index)
  }

  /** An index has been started and not been released. */
  predicate IsLive(output: seq<Frame>, index: nat) {
    SaysStart(output, index) && !SaysRelease(output, index)
  }

  predicate IsDone(output: seq<Frame>, index: nat) {
    ScanFinished(index) in output
  }

  /** How many indexes have been started. */
  function Starts(output: seq<Frame>): nat {
    if output == [] then 0
    else
      var last := output[|output| - 1];
      Starts(output[..|output| - 1]) + if last.Response? && last.outcome.Started? then 1 else 0
  }

  /** The outcome that is due to a request after this output. */
  function Due(output: seq<Frame>, operation: Operation): Outcome {
    match operation
    case Query(valid) => if valid then Answered else Refused
    case StartScan(valid) => if valid && Starts(output) < 0xFFFF_FFFF_FFFF_FFFF then Started(Starts(output) + 1) else Refused
    case AwaitScan(index) => if IsLive(output, index) then Answered else Refused
    case ReleaseIndex(index) => if IsLive(output, index) then Released(index) else Refused
    case Shutdown(valid) => if valid then Answered else Refused
  }

  /** The completion of an index, if that is live and has none yet. */
  function Completion(output: seq<Frame>, index: nat): seq<Frame> {
    if IsLive(output, index) && !IsDone(output, index) then [ScanFinished(index)] else []
  }

  /** What an open bridge writes next. */
  function Next(output: seq<Frame>, event: Event): seq<Frame> {
    match event
    case Received(Request(id, operation)) =>
      (if operation.AwaitScan? then Completion(output, operation.index) else []) + [Response(Some(id), Due(output, operation))]
    case Received(Unidentified) => [Response(None, Refused)]
    case Settled(index) => Completion(output, index)
    case Ended(failed) => if failed then [ProtocolError] else []
  }

  /** A valid shutdown and the end of the input close the bridge. */
  predicate Closes(event: Event) {
    event.Ended? || (event.Received? && event.request.Request? && event.request.operation == Shutdown(true))
  }

  // -- The bridge knows what it has written -----------------------------------------------------------

  predicate SaysStart(output: seq<Frame>, index: nat) {
    exists k :: 0 <= k < |output| && IsStart(output[k], index)
  }

  predicate SaysRelease(output: seq<Frame>, index: nat) {
    exists k :: 0 <= k < |output| && IsRelease(output[k], index)
  }

  lemma SaysOneMore(output: seq<Frame>, frame: Frame, index: nat)
    ensures SaysStart(output + [frame], index) <==> SaysStart(output, index) || IsStart(frame, index)
    ensures SaysRelease(output + [frame], index) <==> SaysRelease(output, index) || IsRelease(frame, index)
    ensures IsDone(output + [frame], index) <==> IsDone(output, index) || frame == ScanFinished(index)
  {
    var all := output + [frame];
    assert all[|output|] == frame;
    if SaysStart(output, index) {
      var k :| 0 <= k < |output| && IsStart(output[k], index);
      assert all[k] == output[k];
    }
    if SaysRelease(output, index) {
      var k :| 0 <= k < |output| && IsRelease(output[k], index);
      assert all[k] == output[k];
    }
  }

  lemma MarkSays(frame: Frame, index: nat)
    ensures Begin in MarkOf(frame, index) <==> IsStart(frame, index)
    ensures Gone in MarkOf(frame, index) <==> IsRelease(frame, index)
    ensures End in MarkOf(frame, index) <==> frame == ScanFinished(index)
  {
  }

  lemma {:induction false} TrailSays(frames: seq<Frame>, index: nat)
    ensures Begin in Trail(frames, index) <==> SaysStart(frames, index)
    ensures Gone in Trail(frames, index) <==> SaysRelease(frames, index)
    ensures End in Trail(frames, index) <==> IsDone(frames, index)
  {
    if frames != [] {
      var n := |frames| - 1;
      TrailSays(frames[..n], index);
      SaysOneMore(frames[..n], frames[n], index);
      MarkSays(frames[n], index);
      assert frames == frames[..n] + [frames[n]];
    }
  }

  lemma KnowsTheIndex(bridge: Bridge, index: nat)
    requires bridge.InStep(index)
    ensures index in bridge.indexes <==> IsLive(bridge.output, index)
    ensures index in bridge.indexes ==>
              && (bridge.indexes[index].emitted <==> IsDone(bridge.output, index))
              && bridge.indexes[index].waiting == !bridge.indexes[index].emitted
  {
    TrailSays(bridge.output, index);
  }

  lemma StartsAppend(output: seq<Frame>, frame: Frame)
    ensures Starts(output + [frame]) == Starts(output) + if frame.Response? && frame.outcome.Started? then 1 else 0
  {
    assert (output + [frame])[..|output|] == output;
  }

  ghost predicate CountsStarts(bridge: Bridge) {
    bridge.next == Starts(bridge.output) + 1
  }

  lemma WrittenCounts(bridge: Bridge, frame: Frame)
    requires CountsStarts(bridge) && !(frame.Response? && frame.outcome.Started?)
    ensures CountsStarts(bridge.Written(frame))
  {
    StartsAppend(bridge.output, frame);
  }

  lemma FinishedCounts(bridge: Bridge, index: nat)
    requires CountsStarts(bridge) && index in bridge.indexes
    ensures CountsStarts(bridge.Finished(index))
  {
    StartsAppend(bridge.output, ScanFinished(index));
  }

  lemma StartedCounts(bridge: Bridge, id: nat)
    requires CountsStarts(bridge)
    ensures CountsStarts(bridge.Dispatch(id, StartScan(true)))
  {
    StartsAppend(bridge.output, Response(Some(id), if bridge.next <= MAXIMUM_ID then Started(bridge.next) else Refused));
  }

  lemma DispatchCounts(bridge: Bridge, id: nat, operation: Operation)
    requires CountsStarts(bridge)
    ensures CountsStarts(bridge.Dispatch(id, operation))
  {
    match operation
    case Query(valid) => WrittenCounts(bridge, Response(Some(id), if valid then Answered else Refused));
    case StartScan(valid) =>
      if valid { StartedCounts(bridge, id); } else { WrittenCounts(bridge, Response(Some(id), Refused)); }
    case AwaitScan(index) =>
      if index in bridge.indexes {
        FinishedCounts(bridge, index);
        WrittenCounts(bridge.Finished(index), Response(Some(id), Answered));
      } else {
        WrittenCounts(bridge, Response(Some(id), Refused));
      }
    case ReleaseIndex(index) =>
      WrittenCounts(bridge, Response(Some(id), if index in bridge.indexes then Released(index) else Refused));
    case Shutdown(valid) => WrittenCounts(bridge, Response(Some(id), if valid then Answered else Refused));
  }

  lemma StepCounts(bridge: Bridge, event: Event)
    requires CountsStarts(bridge)
    ensures CountsStarts(bridge.Step(event))
  {
    if bridge.open {
      match event
      case Received(Request(id, operation)) => DispatchCounts(bridge, id, operation);
      case Received(Unidentified) => WrittenCounts(bridge, Response(None, Refused));
      case Settled(index) => if index in bridge.indexes { FinishedCounts(bridge, index); }
      case Ended(failed) => WrittenCounts(bridge, ProtocolError);
    }
  }

  lemma {:induction false} EveryRunStarts(bridge: Bridge, events: seq<Event>)
    requires bridge == Bridge.New()
    ensures CountsStarts(bridge.Run(events))
  {
    if events == [] {
      StartsAppend([], Ready(PROTOCOL_VERSION));
    } else {
      EveryRunStarts(bridge, events[..|events| - 1]);
      StepCounts(bridge.Run(events[..|events| - 1]), events[|events| - 1]);
    }
  }

  lemma StepWrites(bridge: Bridge, event: Event)
    requires bridge.Inv() && CountsStarts(bridge) && bridge.open
    ensures bridge.Step(event).output == bridge.output + Next(bridge.output, event)
    ensures bridge.Step(event).open == !Closes(event)
  {
    match event
    case Received(Request(id, operation)) =>
      if operation.AwaitScan? || operation.ReleaseIndex? {
        assert bridge.InStep(operation.index);
        KnowsTheIndex(bridge, operation.index);
      }
    case Settled(index) =>
      assert bridge.InStep(index);
      KnowsTheIndex(bridge, index);
    case _ =>
  }

  /**
    In every run the next thing a bridge writes is told by what it has written: each request gets the outcome that is due,
    and a waiter's reply or an awaiting request the completion of an index that is live and has none.
   */
  lemma RepliesFollowTheOutput(events: seq<Event>, event: Event)
    ensures var before, after := Bridge.New().Run(events), Bridge.New().Run(events + [event]);
            if before.open
            then && after.output == before.output + Next(before.output, event)
                 && after.open == !Closes(event)
            else after == before
  {
    assert (events + [event])[..|events|] == events;
    Bridge.New().EveryRunIsInStep(events);
    EveryRunStarts(Bridge.New(), events);
    var before := Bridge.New().Run(events);
    if before.open { StepWrites(before, event); }
  }

  // -- The client takes each reply as it was written --------------------------------------------------

  function Verdicts(frames: seq<Frame>): seq<Reply<Outcome>> {
    if frames == [] then []
    else
      var last := frames[|frames| - 1];
      Verdicts(frames[..|frames| - 1])
      + if last.Response? then [if last.outcome == Refused then Fault(Backend) else Served(last.outcome)] else []
  }

  ghost predicate TakesVerdicts(joint: Joint) {
    !joint.call.Broken? ==> joint.read <= |joint.Output()| && joint.replies == Verdicts(joint.Output()[..joint.read])
  }

  lemma VerdictsNext(frames: seq<Frame>, n: nat)
    requires n < |frames|
    ensures Verdicts(frames[..n + 1])
            == Verdicts(frames[..n]) + if frames[n].Response?
                                        then [if frames[n].outcome == Refused then Fault(Backend) else Served(frames[n].outcome)]
                                        else []
  {
    assert frames[..n + 1][..n] == frames[..n];
  }

  lemma ReadTakesVerdicts(joint: Joint)
    requires joint.Inv() && TakesVerdicts(joint) && joint.read < |joint.Output()|
    ensures TakesVerdicts(joint.Read(joint.Output()[joint.read]))
  {
    VerdictsNext(joint.Output(), joint.read);
    assert joint.FrameOk(joint.read);
    if joint.call.Requesting? && joint.Output()[joint.read].Response? { joint.NextResponse(); }
  }

  lemma FedTakesVerdicts(joint: Joint, event: Event, received: nat)
    requires joint.Inv() && TakesVerdicts(joint)
    ensures TakesVerdicts(joint.Feed(event).(received := received))
  {
    joint.Fed(event);
    StepGrows(joint.Server(), event);
    if !joint.call.Broken? {
      assert joint.Feed(event).Output()[..joint.read] == joint.Output()[..joint.read];
    }
  }

  lemma NextTakesVerdicts(joint: Joint, step: Step)
    requires joint.Inv() && TakesVerdicts(joint)
    ensures TakesVerdicts(joint.Next(step))
  {
    match step
    case Reads => if joint.read < |joint.Output()| { ReadTakesVerdicts(joint); }
    case Takes =>
      if joint.Server().open && joint.received < |joint.sent| { FedTakesVerdicts(joint, joint.NextRequest(), joint.received + 1); }
    case Settles(index) => FedTakesVerdicts(joint, Settled(index), joint.received);
    case Ends(failed) => FedTakesVerdicts(joint, Ended(failed), joint.received);
    case _ =>
  }

  /** In every joint run the replies the client took are the responses it read, each with the outcome that was written. */
  lemma {:induction false} EveryReplyIsAsWritten(joint: Joint, steps: seq<Step>)
    requires joint == Joint.New()
    ensures var end := joint.Run(steps);
            !end.call.Broken? ==> end.read <= |end.Output()| && end.replies == Verdicts(end.Output()[..end.read])
  {
    if steps == [] {
      VerdictsNext(joint.Output(), 0);
      assert joint.Output() == [Ready(PROTOCOL_VERSION)];
    } else {
      var before := joint.Run(steps[..|steps| - 1]);
      EveryReplyIsAsWritten(joint, steps[..|steps| - 1]);
      joint.EveryJointRunInv(steps[..|steps| - 1]);
      NextTakesVerdicts(before, steps[|steps| - 1]);
    }
  }
}
