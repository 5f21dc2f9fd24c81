/** The desktop's side of the bridge: requests that set completion events aside, and the queue they wait in. */
module Clients {
  import opened Options
  import opened StoreModel
  import opened Bridges

  const MAXIMUM_REQUEST: nat := 0xFFFF_FFFF_FFFF_FFFF

  /** Frames that say something unexpected, or nothing that can be read, are protocol errors. */
  datatype Failure = Exited | Exhausted | Protocol | Backend

  datatype Reply<T> = Served(value: T) | Fault(failure: Failure)

  // -- What arrives -------------------------------------------------------------------------------

  /** The indexes whose completion events arrive in positions `from` up to `end`, in order. */
  function Finishes(frames: seq<Frame>, from: nat, end: nat): seq<nat>
    requires from <= end <= |frames|
    decreases end
  {
    if from == end then []
    else Finishes(frames, from, end - 1) + if frames[end - 1].ScanFinished? then [frames[end - 1].index] else []
  }

  lemma FinishesNext(frames: seq<Frame>, from: nat, end: nat, events: seq<nat>)
    requires from <= end < |frames| && frames[end].ScanFinished?
    ensures events + Finishes(frames, from, end) + [frames[end].index] == events + Finishes(frames, from, end + 1)
  {
  }

  /** A completion event that is not the one awaited: it is set aside, and reading goes on. */
  predicate Passes(frame: Frame, awaited: Option<nat>) {
    frame.ScanFinished? && Some(frame.index) != awaited
  }

  /** Where reading stops: at the first frame that is not set aside, or at the end of the stream. */
  function StopAt(frames: seq<Frame>, from: nat, awaited: Option<nat>): (stop: nat)
    requires from <= |frames|
    ensures from <= stop <= |frames|
    decreases |frames| - from
  {
    if from == |frames| || !Passes(frames[from], awaited) then from else StopAt(frames, from + 1, awaited)
  }

  lemma {:induction false} StopsHere(frames: seq<Frame>, from: nat, awaited: Option<nat>)
    requires from <= |frames|
    ensures var stop := StopAt(frames, from, awaited);
            && (forall k :: from <= k < stop ==> Passes(frames[k], awaited))
            && (stop < |frames| ==> !Passes(frames[stop], awaited))
    decreases |frames| - from
  {
    if from < |frames| && Passes(frames[from], awaited) {
      StopsHere(frames, from + 1, awaited);
    }
  }

  /** What a request makes of the frame that it stops at. */
  function Judge(frame: Frame, id: nat): Reply<Outcome> {
    match frame
    case Response(answered, outcome) =>
      if answered != Some(id) then Fault(Protocol) else Verdict(outcome)
    case _ => Fault(Protocol)
  }

  /** The reply that an outcome means for the request it answers. */
  function Verdict(outcome: Outcome): Reply<Outcome> {
    if outcome == Refused then Fault(Backend) else Served(outcome)
  }

  /** The responses carry 0, 1, 2, …: they answer requests numbered like that, in order. */
  predicate AnsweredInOrder(frames: seq<Frame>) {
    forall k :: 0 <= k < |Answers(frames)| ==> Answers(frames)[k] == Some(k)
  }

  /** The events of all other indexes, in order. */
  function Without(events: seq<nat>, index: nat): (rest: seq<nat>)
    ensures multiset(rest) == multiset(events)[index := 0]
  {
    if events == [] then []
    else
      assert events == [events[0]] + events[1..];
      (if events[0] == index then [] else [events[0]]) + Without(events[1..], index)
  }

  /** The events without the oldest one of an index. */
  function Removed(events: seq<nat>, index: nat): (rest: seq<nat>)
    ensures multiset(rest) == multiset(events) - multiset{index}
  {
    if events == [] then []
    else
      assert events == [events[0]] + events[1..];
      if events[0] == index then events[1..] else [events[0]] + Removed(events[1..], index)
  }

  lemma {:induction false} RemovedIsFirst(events: seq<nat>, at: nat, index: nat)
    requires at <= |events| && index !in events[..at] && (at < |events| ==> events[at] == index)
    ensures Removed(events, index) == if at < |events| then events[..at] + events[at + 1..] else events
  {
    if at > 0 {
      assert events[0] == events[..at][0] && events[..at][1..] == events[1..][..at - 1];
      RemovedIsFirst(events[1..], at - 1, index);
      if at < |events| {
        assert [events[0]] + (events[1..][..at - 1] + events[1..][at..]) == events[..at] + events[at + 1..];
      } else {
        assert [events[0]] + events[1..] == events;
      }
    }
  }

  // -- Accounting ---------------------------------------------------------------------------------

  ghost predicate ReleasedAt(frames: seq<Frame>, position: nat, index: nat) {
    position < |frames| && frames[position].Response? && frames[position].outcome == Released(index)
  }

  /** The completion of an index arrives in positions `from` up to `end`. */
  ghost predicate FinishedIn(frames: seq<Frame>, from: nat, end: nat, index: nat) {
    exists k :: from <= k < end <= |frames| && frames[k] == ScanFinished(index)
  }

  /** What became of the completion events read: set aside, delivered, discarded; and where releases were read. */
  datatype Ledger = Ledger(events: seq<nat>, delivered: multiset<nat>, discarded: multiset<nat>, releases: map<nat, nat>)

  /** How many completion events of an index arrive before `end`. */
  function Arrivals(frames: seq<Frame>, end: nat, index: nat): nat
    requires end <= |frames|
  {
    if end == 0 then 0 else Arrivals(frames, end - 1, index) + if frames[end - 1] == ScanFinished(index) then 1 else 0
  }

  /**
   * Each completion event read is set aside, delivered or discarded, exactly once. Only a release discards, and what is
   * set aside for a released index was read after its release.
   */
  ghost predicate Balanced(frames: seq<Frame>, read: nat, ledger: Ledger, index: nat)
    requires read <= |frames|
  {
    && Arrivals(frames, read, index) == multiset(ledger.events)[index] + ledger.delivered[index] + ledger.discarded[index]
    && (if index in ledger.releases
        then var position := ledger.releases[index];
             position < read && ReleasedAt(frames, position, index)
             && (index in ledger.events ==> FinishedIn(frames, position, read, index))
        else index !in ledger.discarded)
  }

  ghost predicate Accounted(frames: seq<Frame>, read: nat, ledger: Ledger)
    requires read <= |frames|
  {
    forall index: nat :: Balanced(frames, read, ledger, index)
  }

  /** The next frame, set aside if it is a completion event. */
  function Taken(frames: seq<Frame>, read: nat, ledger: Ledger): Ledger
    requires read < |frames|
  {
    if frames[read].ScanFinished? then ledger.(events := ledger.events + [frames[read].index]) else ledger
  }

  lemma NextIsBalanced(frames: seq<Frame>, read: nat, ledger: Ledger, index: nat)
    requires read < |frames| && Balanced(frames, read, ledger, index)
    ensures Balanced(frames, read + 1, Taken(frames, read, ledger), index)
  {
    if index in ledger.releases {
      var position := ledger.releases[index];
      if FinishedIn(frames, position, read, index) {
        var k :| position <= k < read && frames[k] == ScanFinished(index);
        assert FinishedIn(frames, position, read + 1, index);
      } else if frames[read] == ScanFinished(index) {
        assert FinishedIn(frames, position, read + 1, index);
      }
    }
  }

  lemma NextIsAccounted(frames: seq<Frame>, read: nat, ledger: Ledger)
    requires read < |frames| && Accounted(frames, read, ledger)
    ensures Accounted(frames, read + 1, Taken(frames, read, ledger))
  {
    var after := Taken(frames, read, ledger);
    var next := read + 1;
    forall index: nat ensures Balanced(frames, next, after, index) {
      assert Balanced(frames, read, ledger, index);
      NextIsBalanced(frames, read, ledger, index);
    }
  }

  lemma {:induction false} RunIsAccounted(frames: seq<Frame>, from: nat, end: nat, ledger: Ledger)
    requires from <= end <= |frames| && Accounted(frames, from, ledger)
    requires forall k :: from <= k < end ==> frames[k].ScanFinished?
    ensures Accounted(frames, end, ledger.(events := ledger.events + Finishes(frames, from, end)))
    decreases end
  {
    if from == end {
      assert ledger.events + [] == ledger.events;
    } else {
      RunIsAccounted(frames, from, end - 1, ledger);
      var before := ledger.(events := ledger.events + Finishes(frames, from, end - 1));
      NextIsAccounted(frames, end - 1, before);
      FinishesNext(frames, from, end - 1, ledger.events);
    }
  }

  lemma DeliveryIsAccounted(frames: seq<Frame>, read: nat, before: Ledger, after: Ledger, delivered: nat)
    requires read <= |frames| && Accounted(frames, read, before) && delivered in before.events
    requires multiset(after.events) == multiset(before.events) - multiset{delivered}
    requires after == before.(events := after.events, delivered := before.delivered + multiset{delivered})
    ensures Accounted(frames, read, after)
  {
    forall index: nat ensures Balanced(frames, read, after, index) {
      assert Balanced(frames, read, before, index);
      assert index in after.events ==> index in multiset(after.events);
    }
  }

  lemma HandedOverIsAccounted(frames: seq<Frame>, read: nat, ledger: Ledger)
    requires read < |frames| && Accounted(frames, read, ledger) && frames[read].ScanFinished?
    ensures Accounted(frames, read + 1, ledger.(delivered := ledger.delivered + multiset{frames[read].index}))
  {
    NextIsAccounted(frames, read, ledger);
    var index := frames[read].index;
    var before, after := Taken(frames, read, ledger), ledger.(delivered := ledger.delivered + multiset{index});
    assert before.events == ledger.events + [index];
    DeliveryIsAccounted(frames, read + 1, before, after, index);
  }

  lemma ReleaseIsAccounted(frames: seq<Frame>, read: nat, before: Ledger, after: Ledger, released: nat)
    requires 0 < read <= |frames| && Accounted(frames, read, before) && ReleasedAt(frames, read - 1, released)
    requires multiset(after.events) == multiset(before.events)[released := 0]
    requires after.delivered == before.delivered && after.releases == before.releases[released := read - 1]
    requires after.discarded == before.discarded[released := before.discarded[released] + multiset(before.events)[released]]
    ensures Accounted(frames, read, after)
  {
    forall index: nat ensures Balanced(frames, read, after, index) {
      assert Balanced(frames, read, before, index);
      assert index in after.events ==> index in multiset(after.events);
    }
  }

  // -- The client ---------------------------------------------------------------------------------

  class Client {
    /** All that will ever arrive on the pipe. */
    const incoming: seq<Frame>
    var position: nat
    var nextRequest: nat
    /** The completion events set aside, oldest first. */
    var events: seq<nat>

    /** The request IDs handed out, oldest first. */
    ghost var issued: seq<nat>
    ghost var delivered: multiset<nat>
    ghost var discarded: multiset<nat>
    ghost var releases: map<nat, nat>

    ghost function Books(): Ledger
      reads this
    {
      Ledger(events, delivered, discarded, releases)
    }

    /** IDs are handed out once each, counting up. */
    ghost predicate Numbered()
      reads this`nextRequest, this`issued
    {
      nextRequest == |issued| <= MAXIMUM_REQUEST && forall k :: 0 <= k < |issued| ==> issued[k] == k
    }

    ghost predicate Valid()
      reads this
    {
      0 < position <= |incoming| && Accounted(incoming, position, Books()) && Numbered()
    }

    /** Every request so far has read its response. */
    ghost predicate IsAnswered()
      reads this
      requires position <= |incoming|
    {
      |Answers(incoming[..position])| == |issued|
    }

    /** The handshake: the first frame must be the ready event. */
    constructor (incoming: seq<Frame>)
      requires incoming != [] && incoming[0].Ready?
      ensures Valid() && this.incoming == incoming && position == 1 && issued == [] && IsAnswered()
      ensures Books() == Ledger([], multiset{}, multiset{}, map[])
    {
      this.incoming, position, nextRequest, events := incoming, 1, 0, [];
      delivered, discarded, releases, issued := multiset{}, multiset{}, map[], [];
      new;
      assert incoming[..1] == [] + [incoming[0]] && Answers([]) == [];
      AnswersAppend([], incoming[0]);
      forall index: nat ensures Balanced(incoming, 1, Books(), index) {
        assert Arrivals(incoming, 1, index) == 0;
      }
    }

    /** The next ID, which no request has had before, until they run out. */
    method ReserveRequestId() returns (id: Reply<nat>)
      requires Valid()
      modifies this`nextRequest, this`issued
      ensures Valid() && id.Served? == (|old(issued)| < MAXIMUM_REQUEST) && (!id.Served? ==> id == Fault(Exhausted))
      ensures issued == old(issued) + if id.Served? then [id.value] else []
      ensures id.Served? ==> forall k :: 0 <= k < |old(issued)| ==> old(issued)[k] < id.value
    {
      if nextRequest == MAXIMUM_REQUEST { return Fault(Exhausted); }
      id := Served(nextRequest);
      nextRequest := nextRequest + 1;
      issued := issued + [id.value];
    }

    /** Sets completion events aside, up to the end of the stream or the first frame that is none, or is the awaited one. */
    method ReadUntil(awaited: Option<nat>)
      requires Valid()
      modifies this`position, this`events
      ensures Valid() && position == StopAt(incoming, old(position), awaited)
      ensures events == old(events) + Finishes(incoming, old(position), position)
    {
      ghost var start, ledger := position, Books();
      while position < |incoming| && Passes(incoming[position], awaited)
        invariant start <= position <= |incoming|
        invariant StopAt(incoming, position, awaited) == StopAt(incoming, start, awaited)
        invariant events == old(events) + Finishes(incoming, start, position)
      {
        FinishesNext(incoming, start, position, ledger.events);
        events := events + [incoming[position].index];
        position := position + 1;
      }
      StopsHere(incoming, start, awaited);
      RunIsAccounted(incoming, start, position, ledger);
    }

    /** Takes the next frame, which is no completion event. */
    method Skip()
      requires Valid() && position < |incoming| && !incoming[position].ScanFinished?
      modifies this`position
      ensures Valid() && position == old(position) + 1
    {
      NextIsAccounted(incoming, position, Books());
      position := position + 1;
    }

    /** A request is answered by the first frame that is no completion event; those before it are set aside. */
    method RequestValue(id: nat) returns (reply: Reply<Outcome>)
      requires Valid()
      modifies this`position, this`events
      ensures Valid()
      ensures var stop := StopAt(incoming, old(position), None);
              && events == old(events) + Finishes(incoming, old(position), stop)
              && position == (if stop == |incoming| then stop else stop + 1)
              && reply == if stop == |incoming| then Fault(Exited) else Judge(incoming[stop], id)
    {
      ReadUntil(None);
      if position == |incoming| { return Fault(Exited); }
      StopsHere(incoming, old(position), None);
      reply := Judge(incoming[position], id);
      Skip();
    }

    /** A request with an ID of its own. If answers come in the order of the requests, it gets the answer meant for it. */
    method Request() returns (reply: Reply<Outcome>)
      requires Valid()
      modifies this`nextRequest, this`issued, this`position, this`events
      ensures Valid()
      ensures var stop, id := StopAt(incoming, old(position), None), |old(issued)|;
              if id == MAXIMUM_REQUEST
              then issued == old(issued) && events == old(events) && position == old(position) && reply == Fault(Exhausted)
              else
                && issued == old(issued) + [id]
                && events == old(events) + Finishes(incoming, old(position), stop)
                && position == (if stop == |incoming| then stop else stop + 1)
                && reply == (if stop == |incoming| then Fault(Exited) else Judge(incoming[stop], id))
                && (old(IsAnswered()) && AnsweredInOrder(incoming) && stop < |incoming| && incoming[stop].Response? ==>
                      IsAnswered() && reply == Verdict(incoming[stop].outcome))
    {
      var id := ReserveRequestId();
      if id.Fault? { return Fault(id.failure); }
      ghost var from := position;
      assert id.value == |old(issued)| by { assert issued[|old(issued)|] == id.value; }
      if |Answers(incoming[..from])| == id.value && AnsweredInOrder(incoming) { TheNextResponseIsMine(incoming, from, id.value); }
      reply := RequestValue(id.value);
    }

    /** Hands out the oldest completion event of an index that was set aside. */
    method TakeIndexEvent(index: nat) returns (found: bool)
      requires Valid()
      modifies this`events, this`delivered
      ensures Valid() && found == (index in old(events))
      ensures events == Removed(old(events), index)
      ensures delivered == old(delivered) + if found then multiset{index} else multiset{}
    {
      var at := 0;
      while at < |events| && events[at] != index
        invariant at <= |events| && index !in events[..at]
      {
        at := at + 1;
      }
      found := at < |events|;
      RemovedIsFirst(events, at, index);
      if found {
        ghost var before := Books();
        events := events[..at] + events[at + 1..];
        delivered := delivered + multiset{index};
        DeliveryIsAccounted(incoming, position, before, Books(), index);
      }
    }

    /** Takes a completion event off the pipe for the caller. */
    method HandOver()
      requires Valid() && position < |incoming| && incoming[position].ScanFinished?
      modifies this`position, this`delivered
      ensures Valid() && position == old(position) + 1
      ensures delivered == old(delivered) + multiset{incoming[old(position)].index}
    {
      HandedOverIsAccounted(incoming, position, Books());
      delivered := delivered + multiset{incoming[position].index};
      position := position + 1;
    }

    /** The next frame but completions of others, which must be the completion of an index. */
    method ReadFinished(index: nat) returns (reply: Reply<nat>)
      requires Valid()
      modifies this`position, this`events, this`delivered
      ensures Valid()
      ensures var stop := StopAt(incoming, old(position), Some(index));
              && events == old(events) + Finishes(incoming, old(position), stop)
              && position == (if stop == |incoming| then stop else stop + 1)
              && reply == (if stop == |incoming| then Fault(Exited)
                           else if incoming[stop] == ScanFinished(index) then Served(index)
                           else Fault(Protocol))
      ensures delivered == old(delivered) + if reply.Served? then multiset{index} else multiset{}
      ensures reply.Served? && old(IsAnswered()) ==> IsAnswered()
    {
      ReadUntil(Some(index));
      if position == |incoming| { return Fault(Exited); }
      StopsHere(incoming, old(position), Some(index));
      if incoming[position].ScanFinished? {
        NoAnswersBetween(incoming, old(position), position + 1);
        HandOver();
        reply := Served(index);
      } else {
        Skip();
        reply := Fault(Protocol);
      }
    }

    /** Waits for a completion event: one set aside already, or the next to arrive, setting those of others aside. */
    method AwaitScan(index: nat) returns (reply: Reply<nat>)
      requires Valid()
      modifies this`position, this`events, this`delivered
      ensures Valid()
      ensures delivered == old(delivered) + if reply.Served? then multiset{index} else multiset{}
      ensures reply.Served? && old(IsAnswered()) ==> IsAnswered()
      ensures if index in old(events)
              then position == old(position) && events == Removed(old(events), index) && reply == Served(index)
              else var stop := StopAt(incoming, old(position), Some(index));
                   && events == old(events) + Finishes(incoming, old(position), stop)
                   && position == (if stop == |incoming| then stop else stop + 1)
                   && reply == if stop == |incoming| then Fault(Exited)
                               else if incoming[stop] == ScanFinished(index) then Served(index)
                               else Fault(Protocol)
    {
      var found := TakeIndexEvent(index);
      if found { return Served(index); }
      RemovedIsFirst(old(events), |old(events)|, index);
      reply := ReadFinished(index);
    }

    /** Drops what was set aside for an index whose release has just been read. */
    method Discard(index: nat)
      requires Valid() && ReleasedAt(incoming, position - 1, index)
      modifies this`events, this`discarded, this`releases
      ensures Valid() && events == Without(old(events), index) && releases == old(releases)[index := position - 1]
    {
      ghost var before := Books();
      events := Without(events, index);
      discarded := discarded[index := discarded[index] + multiset(before.events)[index]];
      releases := releases[index := position - 1];
      ReleaseIsAccounted(incoming, position, before, Books(), index);
    }

    /** A release that carries `id`; the completion event of the index, if it was set aside, is discarded. */
    method ReleaseWith(id: nat, index: nat) returns (reply: Reply<nat>)
      requires Valid()
      modifies this`position, this`events, this`discarded, this`releases
      ensures Valid()
      ensures var stop := StopAt(incoming, old(position), None);
              var queued := old(events) + Finishes(incoming, old(position), stop);
              var released := stop < |incoming| && Judge(incoming[stop], id) == Served(Released(index));
              && position == (if stop == |incoming| then stop else stop + 1)
              && reply.Served? == released
              && events == (if released then Without(queued, index) else queued)
              && releases == if released then old(releases)[index := stop] else old(releases)
    {
      var answer := RequestValue(id);
      match answer
      case Served(Released(released)) =>
        if released == index {
          StopsHere(incoming, old(position), None);
          Discard(index);
          return Served(index);
        }
        return Fault(Protocol);
      case Served(_) => return Fault(Protocol);
      case Fault(failure) => return Fault(failure);
    }

    /** Releases an index under an ID of its own. */
    method ReleaseIndex(index: nat) returns (reply: Reply<nat>)
      requires Valid()
      modifies this`nextRequest, this`issued, this`position, this`events, this`discarded, this`releases
      ensures Valid()
      ensures |old(issued)| == MAXIMUM_REQUEST ==>
                reply == Fault(Exhausted) && position == old(position) && events == old(events) && releases == old(releases)
      ensures |old(issued)| < MAXIMUM_REQUEST ==>
                var stop := StopAt(incoming, old(position), None);
                var queued := old(events) + Finishes(incoming, old(position), stop);
                var released := stop < |incoming| && Judge(incoming[stop], |old(issued)|) == Served(Released(index));
                && position == (if stop == |incoming| then stop else stop + 1)
                && reply.Served? == released
                && events == (if released then Without(queued, index) else queued)
                && releases == if released then old(releases)[index := stop] else old(releases)
      ensures reply.Served? && old(IsAnswered()) && AnsweredInOrder(incoming) ==> IsAnswered()
    {
      var id := ReserveRequestId();
      if id.Fault? { return Fault(id.failure); }
      ghost var from := position;
      assert id.value == |old(issued)| by { assert issued[|old(issued)|] == id.value; }
      if |Answers(incoming[..from])| == id.value && AnsweredInOrder(incoming) { TheNextResponseIsMine(incoming, from, id.value); }
      reply := ReleaseWith(id.value, index);
    }
  }

  /** Starting a client: anything but a ready event of this protocol first is an error. */
  method Spawn(incoming: seq<Frame>) returns (reply: Reply<Client>)
    ensures incoming == [] || incoming[0] != Ready(PROTOCOL_VERSION) ==> reply == Fault(Protocol)
    ensures incoming != [] && incoming[0] == Ready(PROTOCOL_VERSION) ==>
              reply.Served? && fresh(reply.value) && reply.value.Valid() && reply.value.incoming == incoming
              && reply.value.issued == [] && reply.value.IsAnswered()
              && reply.value.Books() == Ledger([], multiset{}, multiset{}, map[])
  {
    if incoming == [] || !incoming[0].Ready? { return Fault(Protocol); }
    if incoming[0].protocol != PROTOCOL_VERSION { return Fault(Protocol); }
    var client := new Client(incoming);
    reply := Served(client);
  }

  // -- Against the bridge -------------------------------------------------------------------------

  lemma {:induction false} ArrivalsAreMarks(frames: seq<Frame>, end: nat, index: nat)
    requires end <= |frames|
    ensures Arrivals(frames, end, index) == multiset(Trail(frames[..end], index))[End]
  {
    if end > 0 {
      ArrivalsAreMarks(frames, end - 1, index);
      EndsAdd(frames[..end - 1], frames[end - 1], index);
      assert frames[..end] == frames[..end - 1] + [frames[end - 1]];
    }
  }

  lemma MarksAdd(trail: seq<Mark>, marks: seq<Mark>, whole: seq<Mark>)
    requires whole == trail + marks && |marks| <= 1
    ensures multiset(whole)[End] == multiset(trail)[End] + if marks == [End] then 1 else 0
  {
    assert multiset(whole) == multiset(trail) + multiset(marks);
  }

  lemma EndsAdd(frames: seq<Frame>, frame: Frame, index: nat)
    ensures multiset(Trail(frames + [frame], index))[End]
            == multiset(Trail(frames, index))[End] + if frame == ScanFinished(index) then 1 else 0
  {
    TrailAppend(frames, frame, index);
    MarksAdd(Trail(frames, index), MarkOf(frame, index), Trail(frames + [frame], index));
  }

  lemma InOrderHasOneEnd(part: seq<Mark>, whole: seq<Mark>)
    requires part <= whole && InOrder(whole)
    ensures multiset(part)[End] <= 1
  {
    if |part| == 1 {
      assert part == [whole[0]];
    } else if |part| == 2 {
      assert part == [whole[0], whole[1]];
    } else if |part| == 3 {
      assert part == [whole[0], whole[1], whole[2]];
    }
  }

  lemma AtMostOneArrives(frames: seq<Frame>, end: nat, index: nat)
    requires end <= |frames| && InOrder(Trail(frames, index))
    ensures Arrivals(frames, end, index) <= 1
  {
    ArrivalsAreMarks(frames, end, index);
    TrailOfPrefix(frames, end, index);
    InOrderHasOneEnd(Trail(frames[..end], index), Trail(frames, index));
  }

  lemma NothingAfterARelease(frames: seq<Frame>, read: nat, ledger: Ledger, index: nat)
    requires read <= |frames| && Balanced(frames, read, ledger, index) && InOrder(Trail(frames, index))
    requires index in ledger.releases
    ensures index !in ledger.events && !FinishedIn(frames, read, |frames|, index)
  {
    var at := ledger.releases[index];
    forall k | at < k < |frames| ensures frames[k] != ScanFinished(index) {
      if frames[k] == ScanFinished(index) { NoSecondEnd(frames, at, k, index); }
    }
  }

  /**
   * Reading what a bridge writes, however calls are interleaved: no completion is delivered twice, one that has been read
   * is delivered or set aside as long as its index is not released, and a released index has nothing left to deliver,
   * neither set aside nor still to come.
   */
  lemma NeitherLostNorRepeated(client: Client, run: seq<Event>, index: nat)
    requires client.Valid() && client.incoming <= Bridge.New().Run(run).output
    ensures client.delivered[index] <= 1
    ensures index !in client.releases ==>
              multiset(client.events)[index] + client.delivered[index] == Arrivals(client.incoming, client.position, index)
    ensures index in client.releases ==>
              index !in client.events && !FinishedIn(client.incoming, client.position, |client.incoming|, index)
  {
    var frames, output := client.incoming, Bridge.New().Run(run).output;
    Bridge.New().CompletionIsEmittedOnce(run, index);
    TrailOfPrefix(output, |frames|, index);
    assert output[..|frames|] == frames;
    InOrderIsClosed(Trail(frames, index), Trail(output, index));
    AtMostOneArrives(frames, client.position, index);
    assert Balanced(frames, client.position, client.Books(), index);
    if index in client.releases { NothingAfterARelease(frames, client.position, client.Books(), index); }
  }

  lemma InOrderIsClosed(part: seq<Mark>, whole: seq<Mark>)
    requires part <= whole && InOrder(whole)
    ensures InOrder(part)
  {
    if |part| == 1 {
      assert part == [whole[0]];
    } else if |part| == 2 {
      assert part == [whole[0], whole[1]];
    } else if |part| == 3 {
      assert part == [whole[0], whole[1], whole[2]];
    }
  }

  /** A client whose requests carry 0, 1, 2, … and that is answered in order is never handed another request's response. */
  lemma TheNextResponseIsMine(frames: seq<Frame>, from: nat, id: nat)
    requires from <= |frames| && AnsweredInOrder(frames)
    requires |Answers(frames[..from])| == id
    ensures var stop := StopAt(frames, from, None);
            stop < |frames| && frames[stop].Response? ==>
              frames[stop].id == Some(id) && |Answers(frames[..stop + 1])| == id + 1
  {
    var stop := StopAt(frames, from, None);
    if stop < |frames| && frames[stop].Response? {
      StopsHere(frames, from, None);
      NoAnswersBetween(frames, from, stop);
      AnswersAppend(frames[..stop], frames[stop]);
      assert frames[..stop + 1] == frames[..stop] + [frames[stop]];
      AnswersOfPrefix(frames, stop + 1);
      assert Answers(frames[..stop + 1])[id] == Answers(frames)[id];
    }
  }

  /** A bridge that takes requests numbered 0, 1, 2, … answers them so, however much of its output has arrived. */
  lemma BridgeAnswersInOrder(frames: seq<Frame>, run: seq<Event>)
    requires frames <= Bridge.New().Run(run).output
    requires var taken := Bridge.New().Taken(run); forall k :: 0 <= k < |taken| ==> taken[k] == Some(k)
    ensures AnsweredInOrder(frames)
  {
    var output := Bridge.New().Run(run).output;
    Bridge.New().EveryRequestIsAnsweredInOrder(run);
    AnswersOfPrefix(output, |frames|);
    assert output[..|frames|] == frames;
  }

  lemma {:induction false} NoAnswersBetween(frames: seq<Frame>, from: nat, end: nat)
    requires from <= end <= |frames| && forall k :: from <= k < end ==> frames[k].ScanFinished?
    ensures Answers(frames[..end]) == Answers(frames[..from])
    decreases end
  {
    if from < end {
      NoAnswersBetween(frames, from, end - 1);
      AnswersAppend(frames[..end - 1], frames[end - 1]);
      assert frames[..end] == frames[..end - 1] + [frames[end - 1]];
    }
  }

  lemma {:induction false} AnswersOfPrefix(frames: seq<Frame>, length: nat)
    requires length <= |frames|
    ensures Answers(frames[..length]) <= Answers(frames)
  {
    if length == |frames| {
      assert frames[..length] == frames;
    } else {
      AnswersOfPrefix(frames[..|frames| - 1], length);
      assert frames[..|frames| - 1][..length] == frames[..length];
    }
  }
}
