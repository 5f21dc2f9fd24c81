/** The abstract state of the native store between two critical sections, and its two terminal steps. */
module StoreModel {
  import opened Options

  const UINT32_MAX: nat := 0xFFFF_FFFF
  const ROOT: nat := 0
  const NO_ID: nat := UINT32_MAX

  datatype State = Pending | Published | Failed

  /** An installed block: its row count and, for each child directory, the row that names it. */
  datatype Stored<+B> = Stored(block: B, count: nat, firstChild: nat, childRows: seq<nat>)

  datatype Record<+B> = Record(parent: nat, row: nat, errno: nat, state: State, stored: Option<Stored<B>>)

  datatype Status = Done | NotFound | AlreadyCompleted | OutOfMemory

  /** The order of a batch's child rows is free; a row names at most one child. */
  ghost predicate ValidChildRows(count: nat, childRows: seq<nat>) {
    && (forall i :: 0 <= i < |childRows| ==> childRows[i] < count)
    && (forall i, j :: 0 <= i < j < |childRows| ==> childRows[i] != childRows[j])
  }

  datatype Store<+B> = Store(records: seq<Record<B>>, journal: seq<nat>, published: nat, failed: nat, entries: nat)
  {
    static function New(): Store<B> {
      Store([Record(NO_ID, NO_ID, 0, Pending, None)], [], 0, 0, 0)
    }

    static function Children(parent: nat, childRows: seq<nat>): seq<Record<B>> {
      seq(|childRows|, i requires 0 <= i < |childRows| => Record(parent, childRows[i], 0, Pending, None))
    }

    /** The directory exists, is pending, and the new IDs stay below the sentinel; `memory` says whether arrays could grow. */
    function PublishStatus(id: nat, childCount: nat, memory: bool): Status {
      if id >= |records| then NotFound
      else if records[id].state != Pending then AlreadyCompleted
      else if |records| + childCount > UINT32_MAX || !memory then OutOfMemory
      else Done
    }

    function Publish(id: nat, block: B, count: nat, childRows: seq<nat>, memory: bool): Store<B> {
      if PublishStatus(id, |childRows|, memory) != Done then this
      else
        var first := if childRows == [] then NO_ID else |records|;
        var record := records[id].(state := Published, stored := Some(Stored(block, count, first, childRows)));
        Store(records[id := record] + Children(id, childRows), journal + [id], published + 1, failed, entries + count)
    }

    function FailStatus(id: nat, memory: bool): Status {
      if id >= |records| then NotFound
      else if records[id].state != Pending then AlreadyCompleted
      else if !memory then OutOfMemory
      else Done
    }

    function Fail(id: nat, errno: nat, memory: bool): Store<B> {
      if FailStatus(id, memory) != Done then this
      else this.(records := records[id := records[id].(state := State.Failed, errno := errno)],
                 journal := journal + [id], failed := failed + 1)
    }

    // -- Invariant ----------------------------------------------------------------------------

    /** `id` is the child that row `row` of published directory `parent` reserved. */
    ghost predicate IsChildOf(id: nat, parent: nat, row: nat) {
      && parent < |records| && records[parent].stored.Some?
      && var stored := records[parent].stored.value;
         && stored.firstChild <= id < stored.firstChild + |stored.childRows|
         && row == stored.childRows[id - stored.firstChild]
    }

    ghost predicate Linked(id: nat)
      requires id < |records|
    {
      records[id].parent < id && IsChildOf(id, records[id].parent, records[id].row)
    }

    ghost predicate ChildRange(id: nat, stored: Stored<B>) {
      && (stored.childRows == [] ==> stored.firstChild == NO_ID)
      && (stored.childRows != [] ==> id < stored.firstChild && stored.firstChild + |stored.childRows| <= |records|)
      && forall child {:trigger records[child].parent} ::
           stored.firstChild <= child < stored.firstChild + |stored.childRows| ==>
             child < |records| && records[child].parent == id
    }

    ghost predicate ValidRecord(id: nat)
      requires id < |records|
    {
      && (records[id].state == Published <==> records[id].stored.Some?)
      && (records[id].stored.Some? ==>
            var stored := records[id].stored.value;
            ValidChildRows(stored.count, stored.childRows) && ChildRange(id, stored))
    }

    /**
      The tree: a parent is published and smaller than its child, each ID from 1 on is in the child range of
      just its parent, and the sentinel is not an ID.
     */
    ghost predicate TreeShape() {
      && 1 <= |records| <= UINT32_MAX
      && records[ROOT].parent == NO_ID
      && (forall id :: 0 < id < |records| ==> Linked(id))
      && (forall id :: 0 <= id < |records| ==> ValidRecord(id))
    }

    predicate Terminal(id: nat) {
      id < |records| && records[id].state != Pending
    }

    ghost predicate ParentsFirst(i: nat)
      requires i < |journal|
    {
      journal[i] < |records| && (journal[i] != ROOT ==> records[journal[i]].parent in journal[..i])
    }

    /** The journal holds each terminal directory once and no other, every parent before its children. */
    ghost predicate JournalOrder() {
      && (forall id {:trigger Terminal(id)} :: id in journal <==> Terminal(id))
      && (forall i, j {:trigger journal[i], journal[j]} :: 0 <= i < j < |journal| ==> journal[i] != journal[j])
      && (forall i :: 0 <= i < |journal| ==> ParentsFirst(i))
    }

    ghost predicate Counted() {
      && published == |InState(Published)|
      && failed == |InState(State.Failed)|
      && entries == EntrySum(|records|)
      && |records| == 1 + ChildSum(|records|)
    }

    function EntrySum(n: nat): nat
      requires n <= |records|
    {
      if n == 0 then 0
      else EntrySum(n - 1) + (if records[n - 1].stored.Some? then records[n - 1].stored.value.count else 0)
    }

    function ChildSum(n: nat): nat
      requires n <= |records|
    {
      if n == 0 then 0
      else ChildSum(n - 1) + (if records[n - 1].stored.Some? then |records[n - 1].stored.value.childRows| else 0)
    }

    ghost predicate Inv() {
      TreeShape() && JournalOrder() && Counted() && |journal| == published + failed
    }

    lemma NewInv()
      requires this == New()
      ensures Inv()
    {
      assert InState(Published) == {} && InState(State.Failed) == {};
      assert EntrySum(1) == EntrySum(0) && ChildSum(1) == ChildSum(0);
    }

    // -- Publication --------------------------------------------------------------------------

    lemma PublishShape(id: nat, block: B, count: nat, childRows: seq<nat>)
      requires TreeShape() && PublishStatus(id, |childRows|, true) == Done && ValidChildRows(count, childRows)
      ensures Publish(id, block, count, childRows, true).TreeShape()
    {
      var after := Publish(id, block, count, childRows, true);
      assert ValidRecord(id);
      forall other | 0 < other < |after.records| ensures after.Linked(other) {
        if other < |records| { assert Linked(other); }
      }
      forall other | 0 <= other < |after.records| ensures after.ValidRecord(other) {
        if other < |records| && other != id { assert ValidRecord(other); }
      }
    }

    /** Journalling a directory that was pending until now keeps the journal free of repeats and parents first. */
    lemma AppendKeepsJournal(id: nat, after: Store<B>)
      requires TreeShape() && JournalOrder() && id < |records| && records[id].state == Pending
      requires after.journal == journal + [id] && |records| <= |after.records|
      requires forall other :: after.Terminal(other) <==> other == id || Terminal(other)
      requires forall other :: 0 <= other < |records| ==> after.records[other].parent == records[other].parent
      ensures after.JournalOrder()
    {
      assert !Terminal(id);
      forall i | 0 <= i < |after.journal| ensures after.ParentsFirst(i) {
        if i < |journal| {
          assert ParentsFirst(i) && after.journal[..i] == journal[..i];
        } else if id != ROOT {
          var parent := records[id].parent;
          assert Linked(id) && ValidRecord(parent) && Terminal(parent);
          assert after.journal[..i] == journal;
        }
      }
    }

    lemma PublishJournal(id: nat, block: B, count: nat, childRows: seq<nat>)
      requires TreeShape() && JournalOrder() && PublishStatus(id, |childRows|, true) == Done
      ensures Publish(id, block, count, childRows, true).JournalOrder()
    {
      var after := Publish(id, block, count, childRows, true);
      forall other ensures after.Terminal(other) <==> other == id || Terminal(other) {
      }
      AppendKeepsJournal(id, after);
    }

    ghost function InState(state: State): set<nat> {
      set id | 0 <= id < |records| && records[id].state == state
    }

    lemma {:induction false} SumsFrame(other: Store<B>, n: nat)
      requires n <= |records| && n <= |other.records|
      requires forall k :: 0 <= k < n ==> other.records[k].stored == records[k].stored
      ensures other.EntrySum(n) == EntrySum(n) && other.ChildSum(n) == ChildSum(n)
    {
      if n > 0 { SumsFrame(other, n - 1); }
    }

    lemma {:induction false} SumsPublish(id: nat, block: B, count: nat, childRows: seq<nat>, n: nat)
      requires PublishStatus(id, |childRows|, true) == Done && records[id].stored.None?
      requires n <= |records| + |childRows|
      ensures var after := Publish(id, block, count, childRows, true);
              var known := if n <= |records| then n else |records|;
              && after.EntrySum(n) == EntrySum(known) + (if id < n then count else 0)
              && after.ChildSum(n) == ChildSum(known) + (if id < n then |childRows| else 0)
    {
      if n > 0 { SumsPublish(id, block, count, childRows, n - 1); }
    }

    lemma PublishCounts(id: nat, block: B, count: nat, childRows: seq<nat>)
      requires Counted() && TreeShape() && PublishStatus(id, |childRows|, true) == Done
      ensures Publish(id, block, count, childRows, true).Counted()
    {
      var after := Publish(id, block, count, childRows, true);
      assert ValidRecord(id);
      SumsPublish(id, block, count, childRows, |after.records|);
      assert after.InState(Published) == InState(Published) + {id};
      assert after.InState(State.Failed) == InState(State.Failed);
    }

    lemma FailStates(id: nat, errno: nat)
      requires FailStatus(id, true) == Done
      ensures var after := Fail(id, errno, true);
              && after.InState(Published) == InState(Published)
              && after.InState(State.Failed) == InState(State.Failed) + {id}
              && id !in InState(State.Failed)
    {
    }

    lemma FailCounts(id: nat, errno: nat)
      requires Counted() && FailStatus(id, true) == Done
      ensures Fail(id, errno, true).Counted()
    {
      FailStates(id, errno);
      SumsFrame(Fail(id, errno, true), |records|);
    }

    lemma FailShape(id: nat, errno: nat)
      requires TreeShape() && FailStatus(id, true) == Done
      ensures Fail(id, errno, true).TreeShape()
    {
      var after := Fail(id, errno, true);
      assert ValidRecord(id);
      forall other | 0 < other < |after.records| ensures after.Linked(other) {
        assert Linked(other);
      }
      forall other | 0 <= other < |after.records| ensures after.ValidRecord(other) {
        assert ValidRecord(other);
      }
    }

    lemma FailJournal(id: nat, errno: nat)
      requires TreeShape() && JournalOrder() && FailStatus(id, true) == Done
      ensures Fail(id, errno, true).JournalOrder()
    {
      var after := Fail(id, errno, true);
      forall other ensures after.Terminal(other) <==> other == id || Terminal(other) {
      }
      AppendKeepsJournal(id, after);
    }

    // -- Whole runs ---------------------------------------------------------------------------

    function Apply(step: Step<B>): Store<B> {
      match step
      case PublishStep(id, block, count, childRows, memory) => Publish(id, block, count, childRows, memory)
      case FailStep(id, errno, memory) => Fail(id, errno, memory)
    }

    function Run(steps: seq<Step<B>>): Store<B>
      decreases |steps|
    {
      if steps == [] then this else Apply(steps[0]).Run(steps[1..])
    }

    lemma ApplyInv(step: Step<B>)
      requires Inv() && ValidStep(step)
      ensures Apply(step).Inv()
      ensures |records| <= |Apply(step).records| && journal <= Apply(step).journal
    {
      match step
      case PublishStep(id, block, count, childRows, memory) =>
        if PublishStatus(id, |childRows|, memory) == Done {
          PublishShape(id, block, count, childRows);
          PublishJournal(id, block, count, childRows);
          PublishCounts(id, block, count, childRows);
        }
      case FailStep(id, errno, memory) =>
        if FailStatus(id, memory) == Done {
          FailShape(id, errno);
          FailJournal(id, errno);
          FailCounts(id, errno);
        }
    }

    /** However workers interleave, the tree and journal invariants hold and the journal only grows at its end. */
    lemma {:induction false} EveryRunKeepsInv(steps: seq<Step<B>>)
      requires Inv() && forall i :: 0 <= i < |steps| ==> ValidStep(steps[i])
      ensures Run(steps).Inv() && journal <= Run(steps).journal
      decreases |steps|
    {
      if steps != [] {
        ApplyInv(steps[0]);
        Apply(steps[0]).EveryRunKeepsInv(steps[1..]);
      }
    }

    /** A finished directory stays as it is: its state, block and links never change again. */
    lemma {:induction false} TerminalIsFinal(steps: seq<Step<B>>, id: nat)
      requires Terminal(id)
      ensures id < |Run(steps).records| && Run(steps).records[id] == records[id]
      decreases |steps|
    {
      if steps != [] {
        Apply(steps[0]).TerminalIsFinal(steps[1..], id);
      }
    }

    // -- Paths --------------------------------------------------------------------------------

    /** The rows that lead from the root to a directory: its path, independent of IDs. */
    ghost function Path(id: nat): seq<nat>
      requires TreeShape() && id < |records|
      decreases id
    {
      if id == ROOT then []
      else
        assert Linked(id);
        Path(records[id].parent) + [records[id].row]
    }

    ghost predicate HasPath(id: nat, path: seq<nat>) {
      TreeShape() && id < |records| && Path(id) == path
    }

    lemma {:induction false} PathIsInjective(a: nat, b: nat)
      requires TreeShape() && a < |records| && b < |records| && Path(a) == Path(b)
      ensures a == b
      decreases a
    {
      if a != ROOT && b != ROOT {
        assert Linked(a) && Linked(b);
        var above, below := records[a].parent, records[b].parent;
        assert Path(a)[..|Path(a)| - 1] == Path(above) && Path(b)[..|Path(b)| - 1] == Path(below);
        assert Path(a)[|Path(a)| - 1] == records[a].row && Path(b)[|Path(b)| - 1] == records[b].row;
        PathIsInjective(above, below);
        assert ValidRecord(above);
      }
    }

    lemma {:induction false} PathFrame(after: Store<B>, id: nat)
      requires TreeShape() && after.TreeShape() && id < |records| <= |after.records|
      requires forall k :: 0 <= k < |records| ==>
                 after.records[k].parent == records[k].parent && after.records[k].row == records[k].row
      ensures after.Path(id) == Path(id)
      decreases id
    {
      if id != ROOT {
        assert Linked(id);
        PathFrame(after, records[id].parent);
      }
    }

    // -- Readers ------------------------------------------------------------------------------

    /** First critical section of a journal read: how many IDs the second one will copy. */
    function Available(cursor: nat, limit: nat): Option<nat> {
      if cursor > |journal| then None
      else Some(if |journal| - cursor < limit then |journal| - cursor else limit)
    }

    /** Second critical section, on whatever journal is there by then. */
    function Copy(cursor: nat, n: nat): seq<nat>
      requires cursor + n <= |journal|
    {
      journal[cursor..cursor + n]
    }

    lemma {:induction false} JournalGrows(steps: seq<Step<B>>)
      ensures journal <= Run(steps).journal
      decreases |steps|
    {
      if steps != [] { Apply(steps[0]).JournalGrows(steps[1..]); }
    }

    /** Appends and reallocations between the two sections do not show: the copy is the slice that was counted. */
    lemma SplitReadIsGenuine(between: seq<Step<B>>, cursor: nat, limit: nat)
      requires Available(cursor, limit).Some?
      ensures var n := Available(cursor, limit).value;
              && cursor + n <= |Run(between).journal|
              && Run(between).Copy(cursor, n) == journal[cursor..cursor + n]
              && (cursor < |journal| && limit > 0 ==> n > 0)
    {
      JournalGrows(between);
    }

    /** The store when a read's second section has run. */
    function AfterRead(page: JournalRead<B>): Store<B> {
      Run(page.before).Run(page.between)
    }

    /** One whole read: size counted in its first section, IDs copied in its second; nothing on a cursor past the end. */
    function ReadPage(cursor: nat, page: JournalRead<B>): (ids: seq<nat>) {
      var available := Run(page.before).Available(cursor, page.limit);
      if available.None? || cursor + available.value > |AfterRead(page).journal| then []
      else AfterRead(page).Copy(cursor, available.value)
    }

    function Collect(cursor: nat, pages: seq<JournalRead<B>>): seq<nat>
      decreases |pages|
    {
      if pages == [] then []
      else
        var ids := ReadPage(cursor, pages[0]);
        ids + AfterRead(pages[0]).Collect(cursor + |ids|, pages[1..])
    }

    function AfterReads(pages: seq<JournalRead<B>>): Store<B>
      decreases |pages|
    {
      if pages == [] then this else AfterRead(pages[0]).AfterReads(pages[1..])
    }

    lemma ReadPageIsSlice(cursor: nat, page: JournalRead<B>)
      requires cursor <= |journal|
      ensures IsSliceAt(ReadPage(cursor, page), AfterRead(page).journal, cursor)
      ensures journal <= AfterRead(page).journal
    {
      JournalGrows(page.before);
      Run(page.before).SplitReadIsGenuine(page.between, cursor, page.limit);
      Run(page.before).JournalGrows(page.between);
    }

    lemma {:induction false} JournalGrowsOverReads(pages: seq<JournalRead<B>>)
      ensures journal <= AfterReads(pages).journal
      decreases |pages|
    {
      if pages != [] {
        ReadPageIsSlice(0, pages[0]);
        AfterRead(pages[0]).JournalGrowsOverReads(pages[1..]);
      }
    }

    /** Chained cursors replay the journal: no gap, no repeat, whatever is appended meanwhile. */
    lemma {:induction false} CursorsReplayTheJournal(cursor: nat, pages: seq<JournalRead<B>>)
      requires cursor <= |journal|
      ensures IsSliceAt(Collect(cursor, pages), AfterReads(pages).journal, cursor)
      decreases |pages|
    {
      if pages == [] {
        assert journal[cursor..cursor] == [];
      } else {
        ReadPageIsSlice(cursor, pages[0]);
        var next, ids := AfterRead(pages[0]), ReadPage(cursor, pages[0]);
        next.CursorsReplayTheJournal(cursor + |ids|, pages[1..]);
        next.JournalGrowsOverReads(pages[1..]);
        JoinSlices(ids, next.journal, next.Collect(cursor + |ids|, pages[1..]), next.AfterReads(pages[1..]).journal, cursor);
      }
    }
  }

  lemma {:induction false} CountBelow(ids: set<nat>, n: nat)
    requires forall id: nat :: id in ids <==> id < n
    ensures |ids| == n
  {
    if n == 0 { assert ids == {}; } else { CountBelow(ids - {n - 1}, n - 1); }
  }

  ghost predicate IsSliceAt(ids: seq<nat>, journal: seq<nat>, start: nat) {
    start + |ids| <= |journal| && ids == journal[start..start + |ids|]
  }

  lemma JoinSlices(ids: seq<nat>, part: seq<nat>, rest: seq<nat>, whole: seq<nat>, start: nat)
    requires part <= whole && IsSliceAt(ids, part, start) && IsSliceAt(rest, whole, start + |ids|)
    ensures IsSliceAt(ids + rest, whole, start)
  {
  }

  datatype Step<+B> =
    | PublishStep(id: nat, block: B, count: nat, childRows: seq<nat>, memory: bool)
    | FailStep(id: nat, errno: nat, memory: bool)

  /** Blocks reach publication validated. */
  ghost predicate ValidStep<B>(step: Step<B>) {
    step.PublishStep? ==> ValidChildRows(step.count, step.childRows)
  }

  /** One journal read: the steps since the last one, the page limit, and the steps between its two sections. */
  datatype JournalRead<+B> = JournalRead(before: seq<Step<B>>, limit: nat, between: seq<Step<B>>)
}
