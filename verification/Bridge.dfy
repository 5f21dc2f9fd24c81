/** The bridge's event loop as seen on its output: one response a request, and one completion event an index. */
module Bridges {
  import opened Options
  import opened StoreModel

  const MAXIMUM_ID: nat := 0xFFFF_FFFF_FFFF_FFFF
  const PROTOCOL_VERSION: nat := 6

  /**
   * The operations, told apart by what they do to indexes. `valid` is the outcome of checking and serving a request;
   * an operation on indexes that fails its checks is an invalid query.
   */
  datatype Operation =
    | Query(valid: bool)
    | StartScan(valid: bool)
    | AwaitScan(index: nat)
    | ReleaseIndex(index: nat)
    | Shutdown(valid: bool)

  datatype Outcome = Started(index: nat) | Released(index: nat) | Answered | Refused

  /** A frame that holds no map, or no valid request ID, is answered too, without an ID. */
  datatype Request = Request(id: nat, operation: Operation) | Unidentified

  datatype Frame = Ready(protocol: nat) | Response(id: Option<nat>, outcome: Outcome) | ScanFinished(index: nat) | ProtocolError

  datatype Index = Index(waiting: bool, emitted: bool)

  /** What the loop receives: a request, a waiter's outcome, or the end of the requests. */
  datatype Event = Received(request: Request) | Settled(index: nat) | Ended(failed: bool)

  datatype Bridge = Bridge(indexes: map<nat, Index>, next: nat, output: seq<Frame>, open: bool)
  {
    static function New(): Bridge {
      Bridge(map[], 1, [Ready(PROTOCOL_VERSION)], true)
    }

    function Written(frame: Frame): Bridge {
      this.(output := output + [frame])
    }

    function Responded(id: nat, outcome: Outcome): Bridge {
      Written(Response(Some(id), outcome))
    }

    /** The completion event of an index, unless it has been written. */
    function EmitOnce(index: nat): Bridge
      requires index in indexes
    {
      if indexes[index].emitted then this
      else Written(ScanFinished(index)).(indexes := indexes[index := indexes[index].(emitted := true)])
    }

    /** The outcome of an index is known: nobody waits for it any more, and its completion has been written. */
    function Finished(index: nat): Bridge
      requires index in indexes
    {
      this.(indexes := indexes[index := indexes[index].(waiting := false)]).EmitOnce(index)
    }

    function Dispatch(id: nat, operation: Operation): Bridge {
      match operation
      case Query(valid) => Responded(id, if valid then Answered else Refused)
      case StartScan(valid) =>
        if next <= MAXIMUM_ID && valid
        then Responded(id, Started(next)).(indexes := indexes[next := Index(true, false)], next := next + 1)
        else Responded(id, Refused)
      case AwaitScan(index) =>
        if index in indexes then Finished(index).Responded(id, Answered) else Responded(id, Refused)
      case ReleaseIndex(index) =>
        if index in indexes then Responded(id, Released(index)).(indexes := indexes - {index}) else Responded(id, Refused)
      case Shutdown(valid) =>
        if valid then Responded(id, Answered).(open := false) else Responded(id, Refused)
    }

    function Step(event: Event): Bridge {
      if !open then this
      else match event
        case Received(Request(id, operation)) => Dispatch(id, operation)
        case Received(Unidentified) => Written(Response(None, Refused))
        // A waiter's reply finishes its index, if that is still known and has not been awaited meanwhile.
        case Settled(index) => if index in indexes && indexes[index].waiting then Finished(index) else this
        case Ended(failed) => (if failed then Written(ProtocolError) else this).(open := false)
    }

    function Run(events: seq<Event>): Bridge {
      if events == [] then this else Run(events[..|events| - 1]).Step(events[|events| - 1])
    }

    // -- One response a request -----------------------------------------------------------------

    /** The IDs of the requests that an open bridge takes, in order. */
    function Taken(events: seq<Event>): seq<Option<nat>> {
      if events == [] then []
      else
        var before := events[..|events| - 1];
        Taken(before) + if Run(before).open then Asked(events[|events| - 1]) else []
    }

    lemma FinishedAnswers(index: nat)
      requires index in indexes
      ensures Answers(Finished(index).output) == Answers(output)
    {
      AnswersAppend(output, ScanFinished(index));
    }

    lemma DispatchAnswers(id: nat, operation: Operation)
      ensures Answers(Dispatch(id, operation).output) == Answers(output) + [Some(id)]
    {
      if operation.AwaitScan? && operation.index in indexes {
        FinishedAnswers(operation.index);
        AnswersAppend(Finished(operation.index).output, Response(Some(id), Answered));
      } else {
        var after := Dispatch(id, operation).output;
        AnswersAppend(output, after[|output|]);
        assert after == output + [after[|output|]];
      }
    }

    lemma StepAnswers(event: Event)
      ensures Answers(Step(event).output) == Answers(output) + if open then Asked(event) else []
    {
      if open {
        match event
        case Received(Request(id, operation)) => DispatchAnswers(id, operation);
        case Received(Unidentified) => AnswersAppend(output, Response(None, Refused));
        case Settled(index) => if index in indexes { FinishedAnswers(index); }
        case Ended(failed) => AnswersAppend(output, ProtocolError);
      }
    }

    /** Whatever waiters reply in between, the responses are those of the requests, one each and in order. */
    lemma {:induction false} EveryRequestIsAnsweredInOrder(events: seq<Event>)
      requires this == New()
      ensures Answers(Run(events).output) == Taken(events)
    {
      if events == [] {
        AnswersAppend([], Ready(PROTOCOL_VERSION));
      } else {
        EveryRequestIsAnsweredInOrder(events[..|events| - 1]);
        Run(events[..|events| - 1]).StepAnswers(events[|events| - 1]);
      }
    }

    // -- One completion event an index ----------------------------------------------------------

    /** What the output says of an index so far agrees with what the bridge knows of it. */
    ghost predicate InStep(index: nat) {
      var trail := Trail(output, index);
      if index in indexes then
        index < next && indexes[index].waiting == !indexes[index].emitted
        && trail == if indexes[index].emitted then [Begin, End] else [Begin]
      else if index < next then trail == [] || trail == [Begin, Gone] || trail == [Begin, End, Gone]
      else trail == []
    }

    ghost predicate Inv() {
      forall index: nat :: InStep(index)
    }

    lemma WrittenInStep(frame: Frame, index: nat)
      requires InStep(index) && MarkOf(frame, index) == []
      ensures Written(frame).InStep(index)
    {
      TrailAppend(output, frame, index);
    }

    lemma FinishedInStep(finished: nat, index: nat)
      requires finished in indexes && InStep(finished) && InStep(index)
      ensures Finished(finished).InStep(index)
    {
      TrailAppend(output, ScanFinished(finished), index);
    }

    lemma StartedInStep(id: nat, index: nat)
      requires InStep(index)
      ensures Dispatch(id, StartScan(true)).InStep(index)
    {
      var frame := Response(Some(id), if next <= MAXIMUM_ID then Started(next) else Refused);
      var trail := Trail(output, index);
      TrailAppend(output, frame, index);
      if next <= MAXIMUM_ID && index == next {
        assert trail + MarkOf(frame, index) == [Begin];
      } else {
        assert trail + MarkOf(frame, index) == trail;
      }
    }

    lemma ReleasedInStep(id: nat, released: nat, index: nat)
      requires InStep(index) && released in indexes
      ensures Dispatch(id, ReleaseIndex(released)).InStep(index)
    {
      var frame := Response(Some(id), Released(released));
      var trail := Trail(output, index);
      TrailAppend(output, frame, index);
      if released != index { assert trail + MarkOf(frame, index) == trail; }
    }

    lemma DispatchInStep(id: nat, operation: Operation, index: nat)
      requires Inv()
      ensures Dispatch(id, operation).InStep(index)
    {
      assert InStep(index);
      match operation
      case Query(valid) => WrittenInStep(Response(Some(id), if valid then Answered else Refused), index);
      case StartScan(valid) =>
        if valid { StartedInStep(id, index); } else { WrittenInStep(Response(Some(id), Refused), index); }
      case AwaitScan(awaited) =>
        if awaited in indexes {
          assert InStep(awaited);
          FinishedInStep(awaited, index);
          Finished(awaited).WrittenInStep(Response(Some(id), Answered), index);
        } else {
          WrittenInStep(Response(Some(id), Refused), index);
        }
      case ReleaseIndex(released) =>
        if released in indexes {
          ReleasedInStep(id, released, index);
        } else {
          WrittenInStep(Response(Some(id), Refused), index);
        }
      case Shutdown(valid) => WrittenInStep(Response(Some(id), if valid then Answered else Refused), index);
    }

    lemma StepInStep(event: Event, index: nat)
      requires Inv()
      ensures Step(event).InStep(index)
    {
      assert InStep(index);
      if open {
        match event
        case Received(Request(id, operation)) => DispatchInStep(id, operation, index);
        case Received(Unidentified) => WrittenInStep(Response(None, Refused), index);
        case Settled(settled) =>
          if settled in indexes {
            assert InStep(settled);
            FinishedInStep(settled, index);
          }
        case Ended(failed) => WrittenInStep(ProtocolError, index);
      }
    }

    /** In every run the bridge knows of each index exactly what its output says. */
    lemma {:induction false} EveryRunIsInStep(events: seq<Event>)
      requires this == New()
      ensures Run(events).Inv()
    {
      if events == [] {
        forall index: nat ensures InStep(index) { TrailAppend([], Ready(PROTOCOL_VERSION), index); }
      } else {
        var before := Run(events[..|events| - 1]);
        EveryRunIsInStep(events[..|events| - 1]);
        var after := before.Step(events[|events| - 1]);
        forall index: nat ensures after.InStep(index) { before.StepInStep(events[|events| - 1], index); }
      }
    }

    /** In every run, the start response of an index, its completion and its release come in this order, each at most once. */
    lemma CompletionIsEmittedOnce(events: seq<Event>, index: nat)
      requires this == New()
      ensures InOrder(Trail(Run(events).output, index))
    {
      EveryRunIsInStep(events);
      assert Run(events).InStep(index);
    }
  }

  /** The request that an event brings, by its ID. */
  function Asked(event: Event): seq<Option<nat>> {
    if !event.Received? then [] else [if event.request.Request? then Some(event.request.id) else None]
  }

  /** The IDs of the responses. */
  function Answers(frames: seq<Frame>): seq<Option<nat>> {
    if frames == [] then []
    else
      var last := frames[|frames| - 1];
      Answers(frames[..|frames| - 1]) + if last.Response? then [last.id] else []
  }

  lemma AnswersAppend(frames: seq<Frame>, frame: Frame)
    ensures Answers(frames + [frame]) == Answers(frames) + if frame.Response? then [frame.id] else []
  {
    assert (frames + [frame])[..|frames|] == frames;
  }

  datatype Mark = Begin | End | Gone

  predicate InOrder(trail: seq<Mark>) {
    trail in {[], [Begin], [Begin, End], [Begin, Gone], [Begin, End, Gone]}
  }

  function MarkOf(frame: Frame, index: nat): seq<Mark> {
    if frame == ScanFinished(index) then [End]
    else if frame.Response? && frame.outcome == Started(index) then [Begin]
    else if frame.Response? && frame.outcome == Released(index) then [Gone]
    else []
  }

  /** What frames say of one index, in order. */
  function Trail(frames: seq<Frame>, index: nat): seq<Mark> {
    if frames == [] then [] else Trail(frames[..|frames| - 1], index) + MarkOf(frames[|frames| - 1], index)
  }

  lemma TrailAppend(frames: seq<Frame>, frame: Frame, index: nat)
    ensures Trail(frames + [frame], index) == Trail(frames, index) + MarkOf(frame, index)
  {
    assert (frames + [frame])[..|frames|] == frames;
  }

  lemma {:induction false} TrailOfPrefix(frames: seq<Frame>, length: nat, index: nat)
    requires length <= |frames|
    ensures Trail(frames[..length], index) <= Trail(frames, index)
  {
    if length == |frames| {
      assert frames[..length] == frames;
    } else {
      TrailOfPrefix(frames[..|frames| - 1], length, index);
      assert frames[..|frames| - 1][..length] == frames[..length];
    }
  }

  lemma {:induction false} MarkIsInTrail(frames: seq<Frame>, position: nat, index: nat)
    requires position < |frames| && MarkOf(frames[position], index) != []
    ensures MarkOf(frames[position], index)[0] in Trail(frames, index)
  {
    if position < |frames| - 1 {
      MarkIsInTrail(frames[..|frames| - 1], position, index);
    }
  }

  /** Before its completion only the start of an index has been reported. */
  lemma EndComesSecond(before: seq<Mark>, whole: seq<Mark>)
    requires InOrder(whole) && before + [End] <= whole
    ensures before == [Begin]
  {
    assert (before + [End])[|before|] == whole[|before|];
    assert forall i :: 0 <= i < |before| ==> (before + [End])[i] == before[i] == whole[i];
  }

  lemma StartedBefore(frames: seq<Frame>, second: nat, index: nat)
    requires InOrder(Trail(frames, index)) && second < |frames| && frames[second] == ScanFinished(index)
    ensures Trail(frames[..second], index) == [Begin]
  {
    var before, taken := frames[..second], frames[..second + 1];
    assert taken == before + [frames[second]];
    TrailAppend(before, frames[second], index);
    assert Trail(taken, index) == Trail(before, index) + [End];
    TrailOfPrefix(frames, second + 1, index);
    EndComesSecond(Trail(before, index), Trail(frames, index));
  }

  /** In an output in order, no completion of an index follows its release, and none follows its completion. */
  lemma NoSecondEnd(frames: seq<Frame>, first: nat, second: nat, index: nat)
    requires InOrder(Trail(frames, index))
    requires first < second < |frames| && frames[second] == ScanFinished(index)
    ensures !(frames[first].Response? && frames[first].outcome == Released(index)) && frames[first] != ScanFinished(index)
  {
    StartedBefore(frames, second, index);
    if MarkOf(frames[first], index) != [] { MarkIsInTrail(frames[..second], first, index); }
  }
}
