/** Client and bridge in one run: what the client writes is the bridge's input, and what the bridge writes the client reads. */
module JointRuns {
  import opened Bridges
  import opened Clients
  import opened Options
  import opened StoreModel

  /** What the client is doing; `Broken` is a protocol error. */
  datatype Call = Idle | Requesting(operation: Operation) | Awaiting(index: nat) | Broken

  datatype Step =
    | Requests(operation: Operation)
    | Awaits(index: nat)
    | Reads
    | Takes
    | Settles(index: nat)
    | Ends(failed: bool)

  /** The outcomes that an operation can have. */
  predicate Fits(operation: Operation, outcome: Outcome) {
    outcome == Refused
    || match operation
       case StartScan(_) => outcome.Started?
       case ReleaseIndex(index) => outcome == Released(index)
       case _ => outcome == Answered
  }

  predicate ReplyFits(operation: Operation, reply: Reply<Outcome>) {
    reply == Fault(Backend) || (reply.Served? && reply.value != Refused && Fits(operation, reply.value))
  }

  /**
    Request `k` of the client carries ID `k`; `received` of them have reached the bridge, whose input so far is `run`.
    The client has read the first `read` frames of the bridge's output.
   */
  datatype Joint = Joint(run: seq<Event>, sent: seq<Operation>, received: nat, read: nat, call: Call, ledger: Ledger,
                         replies: seq<Reply<Outcome>>)
  {
    /** The client has read the ready event. */
    static function New(): Joint {
      Joint([], [], 0, 1, Idle, Ledger([], multiset{}, multiset{}, map[]), [])
    }

    function Server(): Bridge {
      Bridge.New().Run(run)
    }

    function Output(): seq<Frame> {
      Server().output
    }

    function Feed(event: Event): Joint {
      this.(run := run + [event])
    }

    /** A frame that ends a request: its reply is judged, and a confirmed release discards what was set aside. */
    function Answer(operation: Operation, frame: Frame): Joint
      requires sent != []
    {
      var reply := Judge(frame, |sent| - 1);
      var answered := this.(read := read + 1, replies := replies + [reply],
                            call := if ReplyFits(operation, reply) then Idle else Broken);
      if operation.ReleaseIndex? && reply == Served(Released(operation.index))
      then answered.(ledger := Discarded(operation.index))
      else answered
    }

    /** The books once the release of an index has been read as the next frame. */
    function Discarded(index: nat): Ledger {
      Ledger(Without(ledger.events, index), ledger.delivered,
             ledger.discarded[index := ledger.discarded[index] + multiset(ledger.events)[index]],
             ledger.releases[index := read])
    }

    function Delivered(index: nat): Ledger {
      ledger.(delivered := ledger.delivered + multiset{index})
    }

    /** The client reads only while it waits for something. */
    function Read(frame: Frame): Joint {
      match call
      case Requesting(operation) =>
        if frame.ScanFinished? then this.(read := read + 1, ledger := ledger.(events := ledger.events + [frame.index]))
        else if sent == [] then this
        else Answer(operation, frame)
      case Awaiting(index) =>
        if frame == ScanFinished(index) then this.(read := read + 1, ledger := Delivered(index), call := Idle)
        else if frame.ScanFinished? then this.(read := read + 1, ledger := ledger.(events := ledger.events + [frame.index]))
        else this.(read := read + 1, call := Broken)
      case _ => this
    }

    /** A step that cannot happen now leaves the state as it is. */
    function Next(step: Step): Joint {
      match step
      case Requests(operation) =>
        if call.Idle? && |sent| < MAXIMUM_REQUEST then this.(sent := sent + [operation], call := Requesting(operation)) else this
      case Awaits(index) =>
        if !call.Idle? then this
        else if index in ledger.events
        then this.(ledger := Delivered(index).(events := Removed(ledger.events, index)))
        else this.(call := Awaiting(index))
      case Reads => if read < |Output()| then Read(Output()[read]) else this
      case Takes =>
        if Server().open && received < |sent|
        then Feed(NextRequest()).(received := received + 1) else this
      case Settles(index) => Feed(Settled(index))
      case Ends(failed) => Feed(Ended(failed))
    }

    function Run(steps: seq<Step>): Joint {
      if steps == [] then this else Run(steps[..|steps| - 1]).Next(steps[|steps| - 1])
    }

    // -- Invariant ----------------------------------------------------------------------------

    /** The bridge has taken the client's first requests, in order. */
    ghost predicate TakesInOrder() {
      received <= |sent| && |Bridge.New().Taken(run)| == received && forall k :: 0 <= k < received ==> TakenAt(k)
    }

    predicate TakenAt(k: nat) {
      k < |Bridge.New().Taken(run)| && Bridge.New().Taken(run)[k] == Some(k)
    }

    /** A frame of the output: a response fits its request, and the ready event is the first frame. */
    predicate FrameOk(j: nat) {
      j < |Output()| && match Output()[j]
        case Response(Some(id), outcome) => id < |sent| && Fits(sent[id], outcome)
        case Response(None, _) => false
        case Ready(_) => j == 0
        case ProtocolError => Ended(true) in run
        case ScanFinished(_) => true
    }

    /** Every request but the one that waits has read its response, and no other. */
    ghost predicate RepliesOk() {
      && read <= |Output()| && |replies| == |Answers(Output()[..read])| && |replies| + (if call.Requesting? then 1 else 0) == |sent|
      && (call.Requesting? ==> call.operation == sent[|sent| - 1])
      && forall k :: 0 <= k < |replies| ==> ReplyFits(sent[k], replies[k])
    }

    /** What has been written is in order, and what has been read is in the books. */
    ghost predicate FramesOk() {
      && 0 < read <= |Output()|
      && (forall j: nat :: j < |Output()| ==> FrameOk(j))
      && Accounted(Output(), read, ledger)
      && (if call.Broken? then Ended(true) in run else RepliesOk())
    }

    ghost predicate Inv() {
      TakesInOrder() && FramesOk()
    }

    // -- The bridge moves ---------------------------------------------------------------------

    lemma Fed(event: Event)
      ensures Feed(event).Server() == Server().Step(event)
      ensures Bridge.New().Taken(run + [event]) == Bridge.New().Taken(run) + if Server().open then Asked(event) else []
    {
      assert (run + [event])[..|run|] == run;
    }

    /** The books stay balanced while more output arrives behind what has been read. */
    lemma OutputGrows(after: Joint)
      requires 0 < read <= |Output()| && Output() <= after.Output() && Accounted(Output(), read, ledger)
      ensures Accounted(after.Output(), read, ledger) && Answers(after.Output()[..read]) == Answers(Output()[..read])
    {
      forall index: nat ensures Balanced(after.Output(), read, ledger, index) {
        assert Balanced(Output(), read, ledger, index);
        BalancedAmongMore(Output(), after.Output(), read, ledger, index);
      }
      assert after.Output()[..read] == Output()[..read];
    }

    lemma FedFrames(event: Event)
      requires FramesOk() && NewFramesFit(Server(), event, sent)
      ensures Feed(event).FramesOk()
    {
      Fed(event);
      StepGrows(Server(), event);
      OutputGrows(Feed(event));
      forall j: nat | j < |Feed(event).Output()| ensures Feed(event).FrameOk(j) { FrameStays(event, j); }
    }

    lemma FedInv(event: Event)
      requires Inv() && NewFramesFit(Server(), event, sent) && Asked(event) == []
      ensures Feed(event).Inv()
    {
      FedFrames(event);
      Fed(event);
      forall k | 0 <= k < received ensures Feed(event).TakenAt(k) { assert TakenAt(k); }
    }

    lemma ReceivedIsApart(n: nat)
      requires FramesOk()
      ensures this.(received := n).FramesOk()
    {
      forall j: nat | j < |Output()| ensures this.(received := n).FrameOk(j) { assert FrameOk(j); }
    }

    /** The client's next request. */
    function NextRequest(): Event
      requires received < |sent|
    {
      Received(Request(received, sent[received]))
    }

    lemma OneMoreTaken(taken: seq<Option<nat>>, more: seq<Option<nat>>, after: Joint)
      requires TakesInOrder() && received < |sent| && taken == Bridge.New().Taken(run) && more == taken + [Some(received)]
      requires after.sent == sent && after.received == received + 1 && Bridge.New().Taken(after.run) == more
      ensures after.TakesInOrder()
    {
      forall k | 0 <= k < after.received ensures after.TakenAt(k) { if k < received { assert TakenAt(k); } }
    }

    lemma FedTakes()
      requires TakesInOrder() && received < |sent| && Server().open
      ensures Feed(NextRequest()).(received := received + 1).TakesInOrder()
    {
      Fed(NextRequest());
      OneMoreTaken(Bridge.New().Taken(run), Bridge.New().Taken(run + [NextRequest()]),
                   Feed(NextRequest()).(received := received + 1));
    }

    lemma FedRequest()
      requires FramesOk() && received < |sent|
      ensures Feed(NextRequest()).(received := received + 1).FramesOk()
    {
      RequestFits(Server(), received, sent);
      FedFrames(NextRequest());
      Feed(NextRequest()).ReceivedIsApart(received + 1);
    }

    /** The bridge takes the next request of the client. */
    lemma TakesInv()
      requires Inv() && Server().open && received < |sent|
      ensures Next(Takes).Inv()
    {
      FedTakes();
      FedRequest();
    }

    lemma FrameStays(event: Event, j: nat)
      requires FramesOk() && NewFramesFit(Server(), event, sent) && j < |Feed(event).Output()|
      ensures Feed(event).FrameOk(j)
    {
      Fed(event);
      StepGrows(Server(), event);
      if j < |Output()| { assert FrameOk(j); } else { assert FrameFits(Feed(event).Output()[j], event, sent); }
    }

    // -- The client moves ---------------------------------------------------------------------

    lemma RequestsInv(operation: Operation)
      requires Inv()
      ensures Next(Requests(operation)).Inv()
    {
      var after := Next(Requests(operation));
      forall k | 0 <= k < received ensures after.TakenAt(k) { assert TakenAt(k); }
      forall j: nat | j < |Output()| ensures after.FrameOk(j) { assert FrameOk(j); }
    }

    /** Only the client's own state changes. */
    ghost predicate OnlyClientMoves(after: Joint) {
      after == this.(read := after.read, call := after.call, ledger := after.ledger, replies := after.replies)
    }

    lemma ClientInv(after: Joint)
      requires Inv() && OnlyClientMoves(after) && 0 < after.read <= |Output()|
      requires Accounted(Output(), after.read, after.ledger)
      requires if after.call.Broken? then Ended(true) in run else after.RepliesOk()
      ensures after.Inv()
    {
      forall k | 0 <= k < received ensures after.TakenAt(k) { assert TakenAt(k); }
      forall j: nat | j < |Output()| ensures after.FrameOk(j) { assert FrameOk(j); }
    }

    lemma AwaitsInv(index: nat)
      requires Inv()
      ensures Next(Awaits(index)).Inv()
    {
      var after := Next(Awaits(index));
      if call.Idle? && index in ledger.events { DeliveryIsAccounted(Output(), read, ledger, after.ledger, index); }
      ClientInv(after);
    }

    /** The responses read so far, and the next frame. */
    lemma NextAnswers()
      requires read < |Output()|
      ensures Answers(Output()[..read + 1]) == Answers(Output()[..read]) + if Output()[read].Response? then [Output()[read].id] else []
    {
      AnswersAppend(Output()[..read], Output()[read]);
      assert Output()[..read + 1] == Output()[..read] + [Output()[read]];
    }

    /** The next response is that of the oldest request without one. */
    lemma NextResponse()
      requires Inv() && read < |Output()| && Output()[read].Response?
      ensures |Answers(Output()[..read])| < received && Output()[read].id == Some(|Answers(Output()[..read])|)
    {
      NextAnswers();
      Bridge.New().EveryRequestIsAnsweredInOrder(run);
      AnswersOfPrefix(Output(), read + 1);
      var k := |Answers(Output()[..read])|;
      assert Answers(Output()[..read + 1])[k] == Answers(Output())[k];
      assert TakenAt(k);
    }

    lemma SetAsideInv()
      requires Inv() && read < |Output()| && (call.Requesting? || call.Awaiting?)
      requires Output()[read].ScanFinished? && call != Awaiting(Output()[read].index)
      ensures Read(Output()[read]).Inv()
    {
      NextIsAccounted(Output(), read, ledger);
      NextAnswers();
      ClientInv(Read(Output()[read]));
    }

    lemma HandOverInv()
      requires Inv() && read < |Output()| && Output()[read].ScanFinished? && call == Awaiting(Output()[read].index)
      ensures Read(Output()[read]).Inv()
    {
      HandedOverIsAccounted(Output(), read, ledger);
      NextAnswers();
      ClientInv(Read(Output()[read]));
    }

    /** While an index is awaited no response can arrive: every request has been answered. */
    lemma NothingElseArrives()
      requires Inv() && read < |Output()| && call.Awaiting? && !Output()[read].ScanFinished?
      ensures Output()[read].ProtocolError?
    {
      assert FrameOk(read);
      if Output()[read].Response? { NextResponse(); }
    }

    lemma OwnReply(operation: Operation)
      requires Inv() && call == Requesting(operation) && read < |Output()| && Output()[read].Response?
      ensures ReplyFits(operation, Judge(Output()[read], |sent| - 1))
    {
      NextResponse();
      assert FrameOk(read);
    }

    lemma AnswerBooks(operation: Operation)
      requires Inv() && call == Requesting(operation) && read < |Output()| && !Output()[read].ScanFinished?
      ensures Accounted(Output(), read + 1, Answer(operation, Output()[read]).ledger)
    {
      NextIsAccounted(Output(), read, ledger);
      var after := Answer(operation, Output()[read]);
      if after.ledger != ledger {
        assert ReleasedAt(Output(), read, operation.index);
        ReleaseIsAccounted(Output(), read + 1, ledger, after.ledger, operation.index);
      }
    }

    lemma AnswerInv(operation: Operation)
      requires Inv() && call == Requesting(operation) && read < |Output()| && !Output()[read].ScanFinished?
      ensures Read(Output()[read]).Inv()
    {
      var frame := Output()[read];
      AnswerBooks(operation);
      NextAnswers();
      assert FrameOk(read);
      if frame.Response? { OwnReply(operation); }
      ClientInv(Read(frame));
    }

    lemma ReadsInv()
      requires Inv()
      ensures Next(Reads).Inv()
    {
      if read < |Output()| {
        var frame := Output()[read];
        match call
        case Requesting(operation) => if frame.ScanFinished? { SetAsideInv(); } else { AnswerInv(operation); }
        case Awaiting(index) =>
          if frame == ScanFinished(index) { HandOverInv(); }
          else if frame.ScanFinished? { SetAsideInv(); }
          else { BreaksInv(); }
        case _ =>
      }
    }

    lemma BreaksInv()
      requires Inv() && read < |Output()| && call.Awaiting? && !Output()[read].ScanFinished?
      ensures Read(Output()[read]).Inv()
    {
      NothingElseArrives();
      assert FrameOk(read);
      NextIsAccounted(Output(), read, ledger);
      ClientInv(Read(Output()[read]));
    }

    // -- Whole runs ---------------------------------------------------------------------------

    lemma NextInv(step: Step)
      requires Inv()
      ensures Next(step).Inv()
    {
      match step
      case Requests(operation) => RequestsInv(operation);
      case Awaits(index) => AwaitsInv(index);
      case Reads => ReadsInv();
      case Takes => if Server().open && received < |sent| { TakesInv(); }
      case Settles(index) => OtherFits(Server(), Settled(index), sent); FedInv(Settled(index));
      case Ends(failed) => OtherFits(Server(), Ended(failed), sent); FedInv(Ended(failed));
    }

    lemma NewInv()
      requires this == New()
      ensures Inv()
    {
      assert Output() == [Ready(PROTOCOL_VERSION)];
      assert Output()[..1] == [] + [Ready(PROTOCOL_VERSION)];
      AnswersAppend([], Ready(PROTOCOL_VERSION));
      forall index: nat ensures Balanced(Output(), 1, ledger, index) { assert Arrivals(Output(), 1, index) == 0; }
    }

    /** However client, bridge and waiters move, the invariant holds. */
    lemma {:induction false} EveryJointRunInv(steps: seq<Step>)
      requires this == New()
      ensures Run(steps).Inv()
    {
      if steps == [] {
        NewInv();
      } else {
        EveryJointRunInv(steps[..|steps| - 1]);
        Run(steps[..|steps| - 1]).NextInv(steps[|steps| - 1]);
      }
    }

    // -- What every joint run keeps -----------------------------------------------------------

    lemma BooksOfOneIndex(index: nat)
      requires Inv()
      ensures ledger.delivered[index] <= 1
      ensures index !in ledger.releases ==>
                multiset(ledger.events)[index] + ledger.delivered[index] == Arrivals(Output(), read, index)
      ensures index in ledger.releases ==> index !in ledger.events && !FinishedIn(Output(), read, |Output()|, index)
    {
      Bridge.New().CompletionIsEmittedOnce(run, index);
      AtMostOneArrives(Output(), read, index);
      assert Balanced(Output(), read, ledger, index);
      if index in ledger.releases { NothingAfterARelease(Output(), read, ledger, index); }
    }

    /**
      At any time of any joint run: no completion has been delivered twice, one that has been read is set aside or
      delivered until its index is released, and after that none is left, neither set aside nor still to come.
     */
    lemma NeitherLostNorRepeatedJointly(steps: seq<Step>, index: nat)
      requires this == New()
      ensures var end := Run(steps);
              && end.read <= |end.Output()| && end.ledger.delivered[index] <= 1
              && (index !in end.ledger.releases ==>
                    multiset(end.ledger.events)[index] + end.ledger.delivered[index] == Arrivals(end.Output(), end.read, index))
              && (index in end.ledger.releases ==>
                    index !in end.ledger.events && !FinishedIn(end.Output(), end.read, |end.Output()|, index))
    {
      EveryJointRunInv(steps);
      Run(steps).BooksOfOneIndex(index);
    }

    /** In any joint run each reply answers its own request; a protocol error needs an input that failed. */
    lemma EveryReplyIsItsOwn(steps: seq<Step>)
      requires this == New()
      ensures var end := Run(steps);
              if end.call.Broken? then Ended(true) in end.run
              else && |end.replies| + (if end.call.Requesting? then 1 else 0) == |end.sent|
                   && forall k :: 0 <= k < |end.replies| ==> ReplyFits(end.sent[k], end.replies[k])
    {
      EveryJointRunInv(steps);
    }

    /** A client that waits for a response gets on, as long as the bridge is open: it can read, or the bridge can take its request. */
    lemma RequestsGetOn()
      requires Inv() && call.Requesting? && Server().open
      ensures read < |Output()| || received < |sent|
    {
      if read == |Output()| {
        assert Output()[..read] == Output();
        Bridge.New().EveryRequestIsAnsweredInOrder(run);
      }
    }

    // -- Reading to the end of a call ---------------------------------------------------------

    function Reading(n: nat): Joint {
      if n == 0 then this else Reading(n - 1).Next(Reads)
    }

    /** What the call waits for among completion events. */
    function Awaited(): Option<nat> {
      if call.Awaiting? then Some(call.index) else None
    }

    /** The next `n` frames are completion events that have been set aside. */
    function SetAside(n: nat): Joint
      requires read + n <= |Output()|
    {
      this.(read := read + n, ledger := ledger.(events := ledger.events + Finishes(Output(), read, read + n)))
    }

    lemma OneMoreAside(n: nat)
      requires (call.Requesting? || call.Awaiting?) && read + n < |Output()| && Passes(Output()[read + n], Awaited())
      ensures SetAside(n).Next(Reads) == SetAside(n + 1)
    {
      FinishesNext(Output(), read, read + n, ledger.events);
    }

    lemma {:induction false} ReadsAside(n: nat)
      requires (call.Requesting? || call.Awaiting?) && read <= |Output()| && read + n <= StopAt(Output(), read, Awaited())
      ensures Reading(n) == SetAside(n)
    {
      if n == 0 {
        assert ledger.events + [] == ledger.events;
      } else {
        ReadsAside(n - 1);
        StopsHere(Output(), read, Awaited());
        OneMoreAside(n - 1);
      }
    }

    lemma ReadsNext(n: nat)
      requires read + n < |Output()|
      ensures SetAside(n).Next(Reads) == SetAside(n).Read(Output()[read + n])
    {
      assert SetAside(n).Output() == Output();
    }

    /** Frame by frame the client of this run reads what the calls of a client read at once. */
    lemma CallIsReading(n: nat)
      requires (call.Requesting? || call.Awaiting?) && read <= |Output()|
      requires read + n == StopAt(Output(), read, Awaited()) < |Output()|
      ensures Reading(n + 1) == SetAside(n).Read(Output()[read + n])
    {
      ReadsNext(n);
      assert Reading(n + 1) == SetAside(n).Next(Reads) by { ReadsAside(n); }
    }
  }

  /** What may be written in reply to an event. */
  predicate FrameFits(frame: Frame, event: Event, sent: seq<Operation>) {
    match frame
    case Response(Some(id), outcome) => id < |sent| && Fits(sent[id], outcome)
    case Response(None, _) => false
    case Ready(_) => false
    case ProtocolError => event == Ended(true)
    case ScanFinished(_) => true
  }

  ghost predicate NewFramesFit(bridge: Bridge, event: Event, sent: seq<Operation>) {
    forall j: nat :: |bridge.output| <= j < |bridge.Step(event).output| ==> FrameFits(bridge.Step(event).output[j], event, sent)
  }

  lemma StepGrows(bridge: Bridge, event: Event)
    ensures bridge.output <= bridge.Step(event).output
  {
  }

  lemma RequestFits(bridge: Bridge, id: nat, sent: seq<Operation>)
    requires id < |sent|
    ensures NewFramesFit(bridge, Received(Request(id, sent[id])), sent)
  {
  }

  lemma OtherFits(bridge: Bridge, event: Event, sent: seq<Operation>)
    requires !event.Received?
    ensures NewFramesFit(bridge, event, sent)
  {
  }

  lemma {:induction false} ArrivalsAmongMore(frames: seq<Frame>, more: seq<Frame>, end: nat, index: nat)
    requires end <= |frames| && frames <= more
    ensures Arrivals(more, end, index) == Arrivals(frames, end, index)
  {
    if end > 0 { ArrivalsAmongMore(frames, more, end - 1, index); }
  }

  lemma BalancedAmongMore(frames: seq<Frame>, more: seq<Frame>, read: nat, ledger: Ledger, index: nat)
    requires read <= |frames| && frames <= more && Balanced(frames, read, ledger, index)
    ensures Balanced(more, read, ledger, index)
  {
    ArrivalsAmongMore(frames, more, read, index);
    if index in ledger.releases && FinishedIn(frames, ledger.releases[index], read, index) {
      var k :| ledger.releases[index] <= k < read && frames[k] == ScanFinished(index);
      assert more[k] == ScanFinished(index);
    }
  }
}
