/** The window's loop over the completion journal: read a page, summarize it, report, until nothing is left. */
module Drains {
  import opened Counts
  import opened Options
  import opened StoreModel
  import opened Summaries
  import opened Words

  /** The summary of a finished directory; its stored state never changes again, so it depends on the ID alone. */
  datatype Stat = Stat(size: nat, histogram: seq<Contribution>)

  /** An update carries the running total and a copy of the histogram, bucket by bucket. */
  datatype Event = Update(directories: seq<nat>, total: nat, counts: seq<nat>, bytes: seq<nat>) | Finished(total: nat)

  /** One turn: the journal when the page is read, whether a report is due, and the journal and state in the status. */
  datatype Turn = Turn(journal: seq<nat>, due: bool, later: seq<nat>, finished: bool)

  /** The journal only grows, and not at all once the status has said finished, which it then says for good. */
  ghost predicate Follows(turns: seq<Turn>) {
    && (forall i :: 0 <= i < |turns| ==> Grows(turns, i))
    && (forall i :: 0 <= i < |turns| - 1 ==> Continues(turns, i))
  }

  predicate Grows(turns: seq<Turn>, i: nat)
    requires i < |turns|
  {
    turns[i].journal <= turns[i].later
  }

  predicate Continues(turns: seq<Turn>, i: nat)
    requires i + 1 < |turns|
  {
    && turns[i].later <= turns[i + 1].journal
    && (turns[i].finished ==> turns[i + 1].finished && turns[i + 1].later == turns[i].later)
  }

  /** Nothing changes after a turn that was finished. */
  lemma {:induction false} StandsStill(turns: seq<Turn>, f: nat, k: nat)
    requires Follows(turns) && f <= k < |turns| && turns[f].finished
    ensures turns[k].finished && turns[k].later == turns[f].later && (f < k ==> turns[k].journal == turns[f].later)
    decreases k
  {
    if f < k {
      StandsStill(turns, f, k - 1);
      assert Continues(turns, k - 1) && Grows(turns, k);
    }
  }

  /** Turn `k` is due, and as many turns after the finished turn `f` as it takes to read the rest of the journal. */
  predicate IsLateEnough(turns: seq<Turn>, f: nat, k: nat, batch: nat) {
    f < k < |turns| && turns[f].finished && turns[k].due && |turns[f].later| <= (k - f) * batch
  }

  /** Turn by turn a batch has been read since the finished turn `f`, or all there is. */
  predicate KeepsUp(turns: seq<Turn>, f: nat, i: nat, batch: nat, cursor: nat)
    requires f < i <= |turns|
  {
    turns[f].finished ==> cursor >= |turns[f].later| || cursor >= (i - 1 - f) * batch
  }

  lemma OneMore(n: nat, batch: nat)
    ensures (n + 1) * batch == n * batch + batch
  {
  }

  /** The next turn reads on, and reads everything if it is late enough. */
  lemma NextKeepsUp(turns: seq<Turn>, f: nat, i: nat, batch: nat, cursor: nat, after: nat)
    requires Follows(turns) && f <= i < |turns| && (f < i ==> KeepsUp(turns, f, i, batch, cursor)) && cursor <= after
    requires after >= |turns[i].journal| || after >= cursor + batch
    ensures KeepsUp(turns, f, i + 1, batch, after)
    ensures IsLateEnough(turns, f, i, batch) ==> after >= |turns[i].later| && turns[i].finished
  {
    if f < i && turns[f].finished {
      StandsStill(turns, f, i);
      OneMore(i - 1 - f, batch);
    }
  }

  ghost predicate AllKeepUp(turns: seq<Turn>, i: nat, batch: nat, cursor: nat)
    requires i <= |turns|
  {
    forall f: nat :: f < i ==> KeepsUp(turns, f, i, batch, cursor)
  }

  /** No turn before `i` came late enough: the loop would have ended there. */
  ghost predicate NoneLateEnough(turns: seq<Turn>, i: nat, batch: nat) {
    forall f: nat, k: nat :: k < i ==> !IsLateEnough(turns, f, k, batch)
  }

  lemma AllKeepUpNext(turns: seq<Turn>, i: nat, batch: nat, cursor: nat, after: nat)
    requires Follows(turns) && i < |turns| && AllKeepUp(turns, i, batch, cursor) && cursor <= after <= |turns[i].journal|
    requires after == |turns[i].journal| || after == cursor + batch
    ensures AllKeepUp(turns, i + 1, batch, after)
    ensures NoneLateEnough(turns, i, batch) && (turns[i].due && turns[i].finished ==> after < |turns[i].later|) ==>
              NoneLateEnough(turns, i + 1, batch)
  {
    var next := i + 1;
    forall f: nat | f < next
      ensures KeepsUp(turns, f, next, batch, after)
      ensures IsLateEnough(turns, f, i, batch) ==> after >= |turns[i].later| && turns[i].finished
    {
      NextKeepsUp(turns, f, i, batch, cursor, after);
    }
  }

  /** The journal as the turn before left it. */
  function Before(turns: seq<Turn>, i: nat): seq<nat>
    requires i <= |turns|
  {
    if i == 0 then [] else turns[i - 1].later
  }

  lemma TurnGoesOn(turns: seq<Turn>, i: nat)
    requires Follows(turns) && i < |turns|
    ensures Before(turns, i) <= turns[i].journal <= turns[i].later
  {
    assert Grows(turns, i);
    if i > 0 { assert Continues(turns, i - 1); }
  }

  function SizeSum(ids: seq<nat>, stat: nat -> Stat): nat {
    if ids == [] then 0 else SizeSum(ids[..|ids| - 1], stat) + stat(ids[|ids| - 1]).size
  }

  function BytesSum(ids: seq<nat>, stat: nat -> Stat, bucket: nat): nat {
    if ids == [] then 0
    else BytesSum(ids[..|ids| - 1], stat, bucket) + BytesAt(stat(ids[|ids| - 1]).histogram, bucket)
  }

  function CountSum(ids: seq<nat>, stat: nat -> Stat, bucket: nat): nat {
    if ids == [] then 0
    else CountSum(ids[..|ids| - 1], stat, bucket) + CountAt(stat(ids[|ids| - 1]).histogram, bucket)
  }

  /** The directories of all updates so far. */
  function Reported(events: seq<Event>): seq<nat> {
    if events == [] then []
    else
      var last := events[|events| - 1];
      Reported(events[..|events| - 1]) + if last.Update? then last.directories else []
  }

  /** An update tells of everything reported by then, itself included. */
  ghost predicate TellsSoFar(events: seq<Event>, i: nat, stat: nat -> Stat)
    requires i < |events|
  {
    var event, ids := events[i], Reported(events[..i + 1]);
    && event.Update? && event.total == Saturated(SizeSum(ids, stat))
    && |event.counts| == |event.bytes| == HISTOGRAM_BUCKETS
    && forall b :: 0 <= b < HISTOGRAM_BUCKETS ==>
         event.counts[b] == Saturated(CountSum(ids, stat, b)) && event.bytes[b] == Saturated(BytesSum(ids, stat, b))
  }

  /** The `n` first events are updates, and each tells of what was reported by then. */
  ghost predicate AllTellSoFar(events: seq<Event>, n: nat, stat: nat -> Stat)
    requires n <= |events|
  {
    forall i :: 0 <= i < n ==> TellsSoFar(events, i, stat)
  }

  lemma StillTelling(events: seq<Event>, event: Event, stat: nat -> Stat)
    requires AllTellSoFar(events, |events|, stat)
    ensures AllTellSoFar(events + [event], |events|, stat)
  {
    forall i | 0 <= i < |events| ensures TellsSoFar(events + [event], i, stat) {
      assert TellsSoFar(events, i, stat) && (events + [event])[..i + 1] == events[..i + 1];
    }
  }

  class Drain {
    const stat: nat -> Stat
    const batch: nat
    const histogram: SizeHistogram
    var cursor: nat
    var buffered: seq<nat>
    var total: nat
    var events: seq<Event>

    /** The totals are those of the directories summarized so far. */
    ghost predicate Counted(ids: seq<nat>)
      reads this, histogram, histogram.counts, histogram.bytes
    {
      && histogram.Valid()
      && total == Saturated(SizeSum(ids, stat))
      && forall b :: 0 <= b < HISTOGRAM_BUCKETS ==>
           && histogram.bytes[b] == Saturated(BytesSum(ids, stat, b))
           && histogram.counts[b] == Saturated(CountSum(ids, stat, b))
    }

    /** What has been reported and what is buffered is the journal up to the cursor. */
    ghost predicate UpTo(journal: seq<nat>)
      reads this, histogram, histogram.counts, histogram.bytes
    {
      && cursor <= |journal| && Counted(journal[..cursor])
      && Reported(events) + buffered == journal[..cursor]
      && AllTellSoFar(events, |events|, stat)
    }

    constructor (stat: nat -> Stat, batch: nat)
      ensures UpTo([]) && cursor == 0 && fresh(histogram) && fresh(histogram.counts) && fresh(histogram.bytes)
      ensures this.stat == stat && this.batch == batch
    {
      this.stat := stat;
      this.batch := batch;
      histogram := new SizeHistogram();
      cursor, buffered, total, events := 0, [], 0, [];
    }

    /** One directory of a page. */
    method Absorb(id: nat, ghost ids: seq<nat>)
      requires Counted(ids)
      modifies this`total, this`buffered, histogram.counts, histogram.bytes
      ensures Counted(ids + [id]) && buffered == old(buffered) + [id]
    {
      ghost var all := ids + [id];
      assert all[..|all| - 1] == ids && all[|all| - 1] == id;
      total := Saturated(total + stat(id).size);
      ghost var counts, bytes := histogram.counts[..], histogram.bytes[..];
      histogram.Merge(stat(id).histogram);
      forall b | 0 <= b < HISTOGRAM_BUCKETS
        ensures histogram.bytes[b] == Saturated(BytesSum(all, stat, b))
        ensures histogram.counts[b] == Saturated(CountSum(all, stat, b))
      {
        assert histogram.bytes[..][b] == histogram.bytes[b] && histogram.counts[..][b] == histogram.counts[b];
        assert bytes[b] == Saturated(BytesSum(ids, stat, b)) && counts[b] == Saturated(CountSum(ids, stat, b));
      }
      buffered := buffered + [id];
    }

    /** The next page of the journal, at most a batch. */
    method ReadPage(journal: seq<nat>)
      requires UpTo(journal)
      modifies this`total, this`buffered, this`cursor, histogram.counts, histogram.bytes
      ensures UpTo(journal)
      ensures cursor == if |journal| - old(cursor) < batch then |journal| else old(cursor) + batch
    {
      var start := cursor;
      var end := if |journal| - start < batch then |journal| else start + batch;
      ghost var reported := Reported(events);
      for i := start to end
        invariant cursor == start && end <= |journal| && events == old(events)
        invariant Counted(journal[..i]) && reported + buffered == journal[..i]
      {
        assert journal[..i] + [journal[i]] == journal[..i + 1];
        assert reported + (buffered + [journal[i]]) == reported + buffered + [journal[i]];
        Absorb(journal[i], journal[..i]);
      }
      cursor := end;
    }

    /** Sends everything buffered. */
    method Publish(ghost journal: seq<nat>)
      requires UpTo(journal)
      modifies this`events, this`buffered
      ensures UpTo(journal) && buffered == []
    {
      var event := Update(buffered, total, histogram.counts[..], histogram.bytes[..]);
      ghost var before := events;
      assert (events + [event])[..|events|] == events;
      events := events + [event];
      buffered := [];
      assert Reported(events) + buffered == Reported(events) == journal[..cursor];
      StillTelling(before, event, stat);
      assert events[..|before| + 1] == events;
      assert TellsSoFar(events, |before|, stat);
    }

    lemma StillUpTo(journal: seq<nat>, later: seq<nat>)
      requires UpTo(journal) && journal <= later
      ensures UpTo(later)
    {
      assert later[..cursor] == journal[..cursor];
    }

    /** Everything in the journal has been summarized and reported, each directory at its place, and the end announced. */
    ghost predicate Ended(journal: seq<nat>)
      reads this, histogram, histogram.counts, histogram.bytes
    {
      && events != [] && events[|events| - 1] == Finished(total) && AllTellSoFar(events, |events| - 1, stat)
      && Reported(events) == journal && Counted(journal)
    }

    method Finish(ghost journal: seq<nat>)
      requires UpTo(journal) && buffered == [] && cursor == |journal|
      modifies this`events
      ensures Ended(journal)
    {
      ghost var updates := events;
      events := events + [Finished(total)];
      StillTelling(updates, Finished(total), stat);
      assert events[..|events| - 1] == updates && journal[..cursor] == journal;
      assert Reported(updates) + [] == Reported(updates);
    }

    /** One turn: reads a page and, if a report is due, publishes; ends when the final journal is drained. */
    method TakeTurn(turn: Turn) returns (done: bool)
      requires UpTo(turn.journal) && turn.journal <= turn.later
      modifies this, histogram.counts, histogram.bytes
      ensures old(cursor) <= cursor <= |turn.journal| && (cursor == |turn.journal| || cursor == old(cursor) + batch)
      ensures turn.due && turn.finished && cursor == |turn.later| ==> done
      ensures turn.due || |buffered| >= batch ==> buffered == []
      ensures if done then turn.finished && Ended(turn.later) else UpTo(turn.later)
    {
      ReadPage(turn.journal);
      StillUpTo(turn.journal, turn.later);
      done := false;
      if turn.due || |buffered| >= batch {
        done := cursor >= |turn.later| && turn.finished;
        Publish(turn.later);
        if done { Finish(turn.later); }
      }
    }

    /**
      Runs until the journal is drained or the turns are used up. Finished is only sent when every directory
      of the final journal has been summarized and reported, and it is sent at the latest in the first due turn
      that comes late enough after a finished one.
     */
    method DriveIndex(turns: seq<Turn>) returns (last: Option<nat>)
      requires Follows(turns) && UpTo([]) && cursor == 0 && events == []
      modifies this, histogram.counts, histogram.bytes
      ensures last.Some? ==> last.value < |turns| && turns[last.value].finished && Ended(turns[last.value].later)
      ensures last.None? && turns != [] ==> UpTo(turns[|turns| - 1].later) && (buffered == [] || |buffered| < batch)
      ensures forall f: nat, k: nat :: IsLateEnough(turns, f, k, batch) ==> last.Some? && last.value <= k
    {
      for i := 0 to |turns|
        invariant UpTo(Before(turns, i)) && (i == 0 || buffered == [] || |buffered| < batch)
        invariant AllKeepUp(turns, i, batch, cursor) && NoneLateEnough(turns, i, batch)
      {
        TurnGoesOn(turns, i);
        StillUpTo(Before(turns, i), turns[i].journal);
        ghost var before := cursor;
        var done := TakeTurn(turns[i]);
        if done { return Some(i); }
        AllKeepUpNext(turns, i, batch, before, cursor);
      }
      last := None;
    }
  }

  // -- Bytes are conserved ----------------------------------------------------------------------------

  /** The bytes of a contribution list over its first `n` buckets. */
  function ListedBytes(contributions: seq<Contribution>, n: nat): nat {
    if n == 0 then 0 else ListedBytes(contributions, n - 1) + BytesAt(contributions, n - 1)
  }

  function AllBytes(ids: seq<nat>, stat: nat -> Stat, n: nat): nat {
    if n == 0 then 0 else AllBytes(ids, stat, n - 1) + BytesSum(ids, stat, n - 1)
  }

  /** The list a summary sends: each bin once, in any order. */
  ghost predicate ListsBins(contributions: seq<Contribution>, histogram: map<nat, Bin>)
    decreases |contributions|
  {
    if contributions == [] then histogram == map[]
    else
      var last := contributions[|contributions| - 1];
      && last.bucket in histogram && Bin(last.count, last.bytes) == histogram[last.bucket]
      && ListsBins(contributions[..|contributions| - 1], histogram - {last.bucket})
  }

  lemma {:induction false} ListedAdds(contributions: seq<Contribution>, n: nat)
    requires contributions != []
    ensures var last := contributions[|contributions| - 1];
            ListedBytes(contributions, n)
            == ListedBytes(contributions[..|contributions| - 1], n) + if Clamped(last.bucket) < n then last.bytes else 0
  {
    if n > 0 { ListedAdds(contributions, n - 1); }
  }

  lemma {:induction false} ListedNothing(n: nat)
    ensures ListedBytes([], n) == 0
  {
    if n > 0 { ListedNothing(n - 1); }
  }

  lemma {:induction false} ListedIsTotal(contributions: seq<Contribution>, histogram: map<nat, Bin>)
    requires ListsBins(contributions, histogram)
    ensures ListedBytes(contributions, HISTOGRAM_BUCKETS) == Total(BinBytes(histogram))
    decreases |contributions|
  {
    if contributions == [] {
      ListedNothing(HISTOGRAM_BUCKETS);
      assert BinBytes(histogram) == map[];
    } else {
      var last := contributions[|contributions| - 1];
      ListedIsTotal(contributions[..|contributions| - 1], histogram - {last.bucket});
      ListedAdds(contributions, HISTOGRAM_BUCKETS);
      TotalPicksAny(BinBytes(histogram), last.bucket);
      assert BinBytes(histogram) - {last.bucket} == BinBytes(histogram - {last.bucket});
    }
  }

  lemma {:induction false} AllBytesAdds(ids: seq<nat>, stat: nat -> Stat, n: nat)
    requires ids != []
    ensures AllBytes(ids, stat, n)
            == AllBytes(ids[..|ids| - 1], stat, n) + ListedBytes(stat(ids[|ids| - 1]).histogram, n)
  {
    if n > 0 { AllBytesAdds(ids, stat, n - 1); }
  }

  lemma {:induction false} NoBytes(stat: nat -> Stat, n: nat)
    ensures AllBytes([], stat, n) == 0
  {
    if n > 0 { NoBytes(stat, n - 1); }
  }

  /** A directory's summary, as the bridge makes it from its rows, and sends it. */
  ghost predicate IsSummaryOf(stat: Stat, rows: seq<SizedRow>, directory: nat, limit: nat) {
    var s := Summarize(rows, File(directory, 0), limit, NO_SUMMARY);
    stat.size == s.bytes && ListsBins(stat.histogram, s.histogram)
  }

  function RegularBytesOf(ids: seq<nat>, rows: nat -> seq<SizedRow>): nat {
    if ids == [] then 0 else RegularBytesOf(ids[..|ids| - 1], rows) + RegularBytes(rows(ids[|ids| - 1]))
  }

  /** From rows to window: the sizes of regular files, the directory totals and the histogram all add up to the same. */
  lemma {:induction false} BytesAreConserved(ids: seq<nat>, stat: nat -> Stat, rows: nat -> seq<SizedRow>, limit: nat)
    requires forall i :: 0 <= i < |ids| ==> IsSummaryOf(stat(ids[i]), rows(ids[i]), ids[i], limit)
    ensures SizeSum(ids, stat) == RegularBytesOf(ids, rows) == AllBytes(ids, stat, HISTOGRAM_BUCKETS)
  {
    if ids == [] {
      NoBytes(stat, HISTOGRAM_BUCKETS);
    } else {
      var init, last := ids[..|ids| - 1], ids[|ids| - 1];
      BytesAreConserved(init, stat, rows, limit);
      AllBytesAdds(ids, stat, HISTOGRAM_BUCKETS);
      SummaryIsExact(rows(last), last, limit);
      ListedIsTotal(stat(last).histogram, Summarize(rows(last), File(last, 0), limit, NO_SUMMARY).histogram);
    }
  }

  lemma {:induction false} BucketIsPart(ids: seq<nat>, stat: nat -> Stat, n: nat, b: nat)
    requires b < n
    ensures BytesSum(ids, stat, b) <= AllBytes(ids, stat, n)
  {
    if b < n - 1 { BucketIsPart(ids, stat, n - 1, b); }
  }

  /** Below 64 bits nothing saturates: the running total is the regular files' bytes, and each bucket is exact. */
  lemma NothingSaturates(drain: Drain, ids: seq<nat>, rows: nat -> seq<SizedRow>, limit: nat)
    requires drain.Counted(ids) && RegularBytesOf(ids, rows) <= U64_MAX
    requires forall i :: 0 <= i < |ids| ==> IsSummaryOf(drain.stat(ids[i]), rows(ids[i]), ids[i], limit)
    ensures drain.total == RegularBytesOf(ids, rows) == AllBytes(ids, drain.stat, HISTOGRAM_BUCKETS)
    ensures forall b :: 0 <= b < HISTOGRAM_BUCKETS ==> drain.histogram.bytes[b] == BytesSum(ids, drain.stat, b)
  {
    BytesAreConserved(ids, drain.stat, rows, limit);
    forall b | 0 <= b < HISTOGRAM_BUCKETS ensures drain.histogram.bytes[b] == BytesSum(ids, drain.stat, b) {
      BucketIsPart(ids, drain.stat, HISTOGRAM_BUCKETS, b);
    }
  }
}
