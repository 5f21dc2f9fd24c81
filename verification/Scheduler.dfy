/** The dependency-tracked priority queue that the traversal coordinator owns. */
module Schedulers {
  import opened Options
  import opened TermOrders
  import opened Terms
  import opened OrderedQueues

  /** One call of the ranking function: its result and every key it read, missing ones included. */
  datatype Evaluation<K(==)> =
    | Ranked(rank: Term, keys: set<K>)
    | Raised(keys: set<K>)

  function Fetch<K, V>(data: map<K, V>, key: K): Option<V> {
    if key in data then Some(data[key]) else None
  }

  /**
    The contract of a ranking function: every mutable input comes through `read`, so data that agree on
    the keys one evaluation read give that same evaluation.
   */
  ghost predicate Tracked<T(!new), K(!new), V(!new)>(ranker: (T, map<K, V>) -> Evaluation<K>) {
    forall task, before: map<K, V>, after: map<K, V> ::
      (forall key :: key in ranker(task, before).keys ==> Fetch(before, key) == Fetch(after, key))
      ==> ranker(task, after) == ranker(task, before)
  }

  /** What a running ranking function does next, given the answers of its reads so far. */
  datatype Action<K> = Read(key: K) | Return(rank: Term) | Raise

  /**
    Runs the first `budget` reads of a ranking function against the tracking reader. A read is recorded before it
    is answered, and a missing key is answered `None`: the function may rescue that exception and go on.
   */
  function Evaluate<T, K, V>(step: (T, seq<Option<V>>) -> Action<K>, task: T, data: map<K, V>,
                             answers: seq<Option<V>>, keys: set<K>, budget: nat): Evaluation<K>
    decreases budget
  {
    match step(task, answers)
    case Return(rank) => Ranked(rank, keys)
    case Raise => Raised(keys)
    case Read(key) =>
      if budget == 0 then Raised(keys + {key})
      else Evaluate(step, task, data, answers + [Fetch(data, key)], keys + {key}, budget - 1)
  }

  /** The function has returned or raised within the budget. */
  predicate Settles<T, K, V>(step: (T, seq<Option<V>>) -> Action<K>, task: T, data: map<K, V>,
                             answers: seq<Option<V>>, budget: nat)
    decreases budget
  {
    match step(task, answers)
    case Return(_) => true
    case Raise => true
    case Read(key) => budget > 0 && Settles(step, task, data, answers + [Fetch(data, key)], budget - 1)
  }

  ghost predicate Ends<T, K, V>(step: (T, seq<Option<V>>) -> Action<K>, task: T, data: map<K, V>) {
    exists budget: nat :: Settles(step, task, data, [], budget)
  }

  /** It returns or raises some time, whatever the task and the data; how late may depend on both. */
  ghost predicate Terminates<T(!new), K(!new), V(!new)>(step: (T, seq<Option<V>>) -> Action<K>) {
    forall task, data: map<K, V> :: Ends(step, task, data)
  }

  /** The ranking function that a terminating function is when run to its end against the tracking reader. */
  ghost function TrackingRanker<T(!new), K(!new), V(!new)>(step: (T, seq<Option<V>>) -> Action<K>)
    : (T, map<K, V>) -> Evaluation<K>
    requires Terminates(step)
  {
    (task, data) =>
      assert Ends(step, task, data);
      var budget: nat :| Settles(step, task, data, [], budget);
      Evaluate(step, task, data, [], {}, budget)
  }

  /** Once settled, an evaluation is the same on any data that agrees on the keys it recorded, and with any more time. */
  lemma {:induction false} EvaluateAgrees<T, K, V>(
      step: (T, seq<Option<V>>) -> Action<K>, task: T, before: map<K, V>, after: map<K, V>,
      answers: seq<Option<V>>, keys: set<K>, budget: nat, later: nat)
    requires Settles(step, task, before, answers, budget) && Settles(step, task, after, answers, later)
    requires forall key :: key in Evaluate(step, task, before, answers, keys, budget).keys
                           ==> Fetch(before, key) == Fetch(after, key)
    ensures Evaluate(step, task, after, answers, keys, later) == Evaluate(step, task, before, answers, keys, budget)
    decreases budget
  {
    match step(task, answers)
    case Return(_) =>
    case Raise =>
    case Read(key) =>
      EvaluateKeepsReads(step, task, before, answers + [Fetch(before, key)], keys + {key}, budget - 1);
      EvaluateAgrees(step, task, before, after, answers + [Fetch(before, key)], keys + {key}, budget - 1, later - 1);
  }

  lemma {:induction false} EvaluateKeepsReads<T, K, V>(
      step: (T, seq<Option<V>>) -> Action<K>, task: T, data: map<K, V>,
      answers: seq<Option<V>>, keys: set<K>, budget: nat)
    ensures keys <= Evaluate(step, task, data, answers, keys, budget).keys
    decreases budget
  {
    match step(task, answers)
    case Return(_) =>
    case Raise =>
    case Read(key) =>
      if budget > 0 {
        EvaluateKeepsReads(step, task, data, answers + [Fetch(data, key)], keys + {key}, budget - 1);
      }
  }

  /** The reader makes every terminating function tracked, even one that survives reads of missing keys. */
  lemma ReaderTracks<T(!new), K(!new), V(!new)>(step: (T, seq<Option<V>>) -> Action<K>)
    requires Terminates(step)
    ensures Tracked(TrackingRanker(step))
    ensures forall task, data: map<K, V>, budget: nat ::
              Settles(step, task, data, [], budget)
              ==> TrackingRanker(step)(task, data) == Evaluate(step, task, data, [], {}, budget)
  {
    var ranker := TrackingRanker(step);
    forall task, data: map<K, V>, budget: nat | Settles(step, task, data, [], budget)
      ensures ranker(task, data) == Evaluate(step, task, data, [], {}, budget)
    {
      assert Ends(step, task, data);
      var first: nat :|
        Settles(step, task, data, [], first) && ranker(task, data) == Evaluate(step, task, data, [], {}, first);
      EvaluateAgrees(step, task, data, data, [], {}, first, budget);
    }
    forall task, before: map<K, V>, after: map<K, V>
      | forall key :: key in ranker(task, before).keys ==> Fetch(before, key) == Fetch(after, key)
      ensures ranker(task, after) == ranker(task, before)
    {
      assert Ends(step, task, before) && Ends(step, task, after);
      var budget: nat :| Settles(step, task, before, [], budget);
      var later: nat :| Settles(step, task, after, [], later);
      EvaluateAgrees(step, task, before, after, [], {}, budget, later);
    }
  }

  // ---------------------------------------------------------------------------------------------
  // The queue: an ordered tree of keys, here its in-order listing

  datatype QueueKey = QueueKey(rank: Term, sequence: nat)

  /** Tree order of `{rank, -sequence}`: the largest key is popped first, earlier insertions win ties. */
  predicate Less(a: QueueKey, b: QueueKey) {
    var order := Compare(a.rank, b.rank);
    order < 0 || (order == 0 && a.sequence > b.sequence)
  }

  lemma LessTransitive(a: QueueKey, b: QueueKey, c: QueueKey)
    requires Less(a, b) && Less(b, c)
    ensures Less(a, c)
  {
    CompareTransitive(a.rank, b.rank, c.rank);
  }

  lemma LessTotal(a: QueueKey, b: QueueKey)
    ensures !(Less(a, b) && Less(b, a))
    ensures a.sequence != b.sequence ==> Less(a, b) || Less(b, a)
  {
    CompareSymmetric(a.rank, b.rank);
  }

  lemma LessIsStrict()
    ensures StrictOrder(Less)
  {
    forall a ensures !Less(a, a) { LessTotal(a, a); }
    forall a, b, c | Less(a, b) && Less(b, c) ensures Less(a, c) { LessTransitive(a, b, c); }
  }

  // ---------------------------------------------------------------------------------------------
  // The scheduler

  datatype Item<T, K(==)> = Item(data: T, rank: Term, dependencies: set<K>, sequence: nat, evaluatedAt: nat)

  function KeyOf<T, K>(item: Item<T, K>): QueueKey {
    QueueKey(item.rank, item.sequence)
  }

  datatype Result<+S> = Ok(value: S) | RankError

  datatype Popped<I, T> = Popped(id: I, data: T, rank: Term)

  datatype Scheduler<!I(==, !new), !T(!new), !K(==, !new), !V(==, !new)> = Scheduler(
    ranker: (T, map<K, V>) -> Evaluation<K>,
    data: map<K, V>,
    revision: nat,
    tasks: map<I, Item<T, K>>,
    queue: Queue<QueueKey, I>,
    dependents: map<K, set<I>>,
    nextSequence: nat)
  {
    // -- Operations ---------------------------------------------------------------------------

    static function New(ranker: (T, map<K, V>) -> Evaluation<K>, data: map<K, V>): Scheduler<I, T, K, V> {
      Scheduler(ranker, data, 0, map[], [], map[], 0)
    }

    static function AddDependencies(dependents: map<K, set<I>>, id: I, keys: set<K>): map<K, set<I>> {
      map key | key in dependents.Keys + keys ::
        (if key in dependents then dependents[key] else {}) + (if key in keys then {id} else {})
    }

    /** Keys left without a dependent task are dropped. */
    static function RemoveDependencies(dependents: map<K, set<I>>, id: I, keys: set<K>): map<K, set<I>> {
      map key | key in dependents && !(key in keys && dependents[key] - {id} == {}) ::
        if key in keys then dependents[key] - {id} else dependents[key]
    }

    function AddTask(id: I, item: Item<T, K>): Scheduler<I, T, K, V> {
      this.(tasks := tasks[id := item],
            queue := Insert(queue, (KeyOf(item), id), Less),
            dependents := AddDependencies(dependents, id, item.dependencies))
    }

    function RemoveTask(id: I): Scheduler<I, T, K, V> {
      if id !in tasks then this
      else this.(tasks := tasks - {id},
                 queue := DeleteAny(queue, KeyOf(tasks[id]), Less),
                 dependents := RemoveDependencies(dependents, id, tasks[id].dependencies))
    }

    function PutEvaluatedTask(id: I, task: T, rank: Term, keys: set<K>): Scheduler<I, T, K, V> {
      var sequence := if id in tasks then tasks[id].sequence else nextSequence;
      var next := if id in tasks then nextSequence else nextSequence + 1;
      RemoveTask(id).AddTask(id, Item(task, rank, keys, sequence, revision)).(nextSequence := next)
    }

    function PutTask(id: I, task: T): Result<Scheduler<I, T, K, V>> {
      match ranker(task, data)
      case Ranked(rank, keys) => Ok(PutEvaluatedTask(id, task, rank, keys))
      case Raised(_) => RankError
    }

    /** All new tasks are evaluated before any is inserted; one failure leaves the scheduler as it was. */
    function PutTasks(pairs: seq<(I, T)>): Result<Scheduler<I, T, K, V>> {
      if exists i :: 0 <= i < |pairs| && ranker(pairs[i].1, data).Raised? then RankError
      else Ok(PutEvaluatedTasks(pairs))
    }

    function PutEvaluatedTasks(pairs: seq<(I, T)>): Scheduler<I, T, K, V>
      requires forall i :: 0 <= i < |pairs| ==> ranker(pairs[i].1, data).Ranked?
      decreases |pairs|
    {
      if pairs == [] then this
      else
        var evaluation := ranker(pairs[0].1, data);
        PutEvaluatedTask(pairs[0].0, pairs[0].1, evaluation.rank, evaluation.keys).PutEvaluatedTasks(pairs[1..])
    }

    function DeleteTask(id: I): Scheduler<I, T, K, V> {
      RemoveTask(id)
    }

    ghost function PutData(values: map<K, V>): Result<Scheduler<I, T, K, V>> {
      var changed := map key | key in values && Fetch(data, key) != Some(values[key]) :: values[key];
      ApplyDataChange(data + changed, changed.Keys)
    }

    ghost function DeleteData(key: K): Result<Scheduler<I, T, K, V>> {
      if key in data then ApplyDataChange(data - {key}, {key}) else Ok(this)
    }

    function Affected(changed: set<K>): set<I> {
      set key, id | key in changed && key in dependents && id in dependents[key] :: id
    }

    /** Some enumeration of a finite set; which one is unspecified. */
    static ghost function Enumerate(ids: set<I>): (order: seq<I>)
      ensures forall id :: id in order <==> id in ids
    {
      if ids == {} then []
      else
        var id :| id in ids;
        [id] + Enumerate(ids - {id})
    }

    /** The scheduler that holds the new data but still the old ranks. */
    function WithData(newData: map<K, V>): Scheduler<I, T, K, V> {
      this.(data := newData, revision := revision + 1)
    }

    /** Replaces the listed evaluations in the order given. */
    function ReplaceInOrder(order: seq<I>): Scheduler<I, T, K, V>
      requires CanReplace(order)
      decreases |order|
    {
      if order == [] then this else ReplaceEvaluation(order[0]).ReplaceInOrder(order[1..])
    }

    ghost function ApplyDataChange(newData: map<K, V>, changed: set<K>): Result<Scheduler<I, T, K, V>> {
      if changed == {} then Ok(this)
      else
        var order := Enumerate(Affected(changed));
        var updated := WithData(newData);
        if updated.CanReplace(order) then Ok(updated.ReplaceInOrder(order)) else RankError
    }

    function ReplaceEvaluation(id: I): Scheduler<I, T, K, V>
      requires id in tasks && ranker(tasks[id].data, data).Ranked?
    {
      var evaluation := ranker(tasks[id].data, data);
      RemoveTask(id).AddTask(id, tasks[id].(rank := evaluation.rank, dependencies := evaluation.keys,
                                            evaluatedAt := revision))
    }

    predicate CanReplace(order: seq<I>) {
      forall id :: id in order ==> id in tasks && ranker(tasks[id].data, data).Ranked?
    }

    function Pop(): Option<(Popped<I, T>, Scheduler<I, T, K, V>)> {
      if queue == [] then None
      else
        var id := queue[|queue| - 1].1;
        if id !in tasks then None
        else
          var item := tasks[id];
          Some((Popped(id, item.data, item.rank),
                this.(queue := queue[..|queue| - 1], tasks := tasks - {id},
                      dependents := RemoveDependencies(dependents, id, item.dependencies))))
    }

    function PopMany(count: nat): (seq<Popped<I, T>>, Scheduler<I, T, K, V>)
      decreases count
    {
      if count == 0 then ([], this)
      else match Pop()
        case None => ([], this)
        case Some((first, rest)) =>
          var (others, last) := rest.PopMany(count - 1);
          ([first] + others, last)
    }

    // -- Invariant ----------------------------------------------------------------------------

    ghost predicate InQueueOrder() {
      && Sorted(queue, Less)
      && (forall e: (QueueKey, I) :: e in queue <==> e.1 in tasks && e.0 == KeyOf(tasks[e.1]))
    }

    ghost predicate DistinctSequences() {
      forall a, b :: a in tasks && b in tasks && a != b ==> tasks[a].sequence != tasks[b].sequence
    }

    predicate DependsOn(id: I, key: K) {
      id in tasks && key in tasks[id].dependencies
    }

    ghost predicate Indexed() {
      && (forall key :: key in dependents ==> dependents[key] != {})
      && (forall key, id :: key in dependents && id in dependents[key] <==> DependsOn(id, key))
    }

    /** Queue, task map and dependents index describe the same pending tasks. */
    ghost predicate Coherent() {
      InQueueOrder() && DistinctSequences() && Indexed()
    }

    ghost predicate SequencesBounded() {
      forall id :: id in tasks ==> tasks[id].sequence < nextSequence
    }

    /** The task's cached rank and dependencies are what evaluating it now would give. */
    ghost predicate FreshTask(id: I)
      requires id in tasks
    {
      ranker(tasks[id].data, data) == Ranked(tasks[id].rank, tasks[id].dependencies)
    }

    ghost predicate Fresh() {
      forall id :: id in tasks ==> FreshTask(id)
    }

    ghost predicate Inv() {
      Tracked(ranker) && Coherent() && SequencesBounded() && Fresh()
    }

    // -- Coherence ----------------------------------------------------------------------------

    lemma AddTaskIsCoherent(id: I, item: Item<T, K>)
      requires Coherent() && id !in tasks
      requires forall other :: other in tasks ==> tasks[other].sequence != item.sequence
      ensures NoCollision(queue, KeyOf(item), Less)
      ensures AddTask(id, item).Coherent()
    {
      LessIsStrict();
      forall e: (QueueKey, I) | e in queue ensures Less(KeyOf(item), e.0) || Less(e.0, KeyOf(item)) {
        LessTotal(KeyOf(item), e.0);
      }
      InsertIsSorted(queue, (KeyOf(item), id), Less);
      var after := AddTask(id, item);
      assert after.InQueueOrder();
      forall key, other
        ensures key in after.dependents && other in after.dependents[key] <==> after.DependsOn(other, key)
      {
        assert key in dependents && other in dependents[key] <==> DependsOn(other, key);
        assert key in dependents && id in dependents[key] <==> DependsOn(id, key);
      }
    }

    lemma RemoveTaskIsCoherent(id: I)
      requires Coherent()
      ensures RemoveTask(id).Coherent()
      ensures RemoveTask(id).tasks == tasks - {id}
    {
      if id in tasks {
        LessIsStrict();
        assert (KeyOf(tasks[id]), id) in queue;
        DeleteIsSorted(queue, (KeyOf(tasks[id]), id), Less);
        RemoveDependenciesIsIndexed(id);
        var after := RemoveTask(id);
        forall e: (QueueKey, I)
          ensures e in after.queue <==> e.1 in after.tasks && e.0 == KeyOf(after.tasks[e.1])
        {
        }
      }
    }

    lemma RemoveDependenciesIsIndexed(id: I)
      requires Indexed() && id in tasks
      ensures RemoveTask(id).Indexed()
    {
      var after := RemoveTask(id);
      forall key, other
        ensures key in after.dependents && other in after.dependents[key] <==> after.DependsOn(other, key)
      {
        assert key in dependents && other in dependents[key] <==> DependsOn(other, key);
        assert key in dependents && id in dependents[key] <==> DependsOn(id, key);
      }
    }

    /** A coherent scheduler is determined by its tasks: there is one queue and one index for them. */
    lemma CoherentIsUnique(other: Scheduler<I, T, K, V>)
      requires Coherent() && other.Coherent() && tasks == other.tasks
      ensures queue == other.queue && dependents == other.dependents
    {
      LessIsStrict();
      SortedIsUnique(queue, other.queue, Less);
      forall key ensures key in dependents <==> key in other.dependents
                 ensures key in dependents ==> dependents[key] == other.dependents[key]
      {
        if key in dependents {
          var id :| id in dependents[key];
          assert DependsOn(id, key) && other.DependsOn(id, key);
        }
        if key in other.dependents {
          var id :| id in other.dependents[key];
          assert DependsOn(id, key) && other.DependsOn(id, key);
        }
        if key in dependents {
          forall id ensures id in dependents[key] <==> id in other.dependents[key] {
            assert DependsOn(id, key) <==> other.DependsOn(id, key);
          }
        }
      }
    }

    // -- Every operation keeps the invariant --------------------------------------------------

    lemma NewInv()
      requires this == New(ranker, data) && Tracked(ranker)
      ensures Inv()
    {
    }

    lemma PutEvaluatedTaskIsCoherent(id: I, task: T, rank: Term, keys: set<K>)
      requires Coherent() && SequencesBounded()
      ensures PutEvaluatedTask(id, task, rank, keys).Coherent()
    {
      RemoveTaskIsCoherent(id);
      var sequence := if id in tasks then tasks[id].sequence else nextSequence;
      var item := Item(task, rank, keys, sequence, revision);
      RemoveTask(id).AddTaskIsCoherent(id, item);
      var added := RemoveTask(id).AddTask(id, item);
      var after := PutEvaluatedTask(id, task, rank, keys);
      assert forall key, other :: after.DependsOn(other, key) == added.DependsOn(other, key);
    }

    /** Inserting or replacing one task: only its own entry changes, and a replaced task keeps its place among ties. */
    lemma PutEvaluatedTaskInv(id: I, task: T, rank: Term, keys: set<K>)
      requires Inv() && ranker(task, data) == Ranked(rank, keys)
      ensures var after := PutEvaluatedTask(id, task, rank, keys);
              && after.Inv()
              && after.ranker == ranker && after.data == data && after.revision == revision
              && after.tasks.Keys == tasks.Keys + {id}
              && (forall other :: other in tasks && other != id ==> after.tasks[other] == tasks[other])
              && after.tasks[id].data == task
              && (id in tasks ==> after.tasks[id].sequence == tasks[id].sequence)
              && (id !in tasks ==> forall other :: other in tasks ==> tasks[other].sequence < after.tasks[id].sequence)
              && nextSequence <= after.nextSequence
    {
      PutEvaluatedTaskIsCoherent(id, task, rank, keys);
      var after := PutEvaluatedTask(id, task, rank, keys);
      forall other | other in after.tasks ensures after.FreshTask(other) {
        assert other != id ==> FreshTask(other);
      }
    }

    static function Ids(pairs: seq<(I, T)>): set<I> {
      if pairs == [] then {} else {pairs[0].0} + Ids(pairs[1..])
    }

    lemma {:induction false} PutEvaluatedTasksInv(pairs: seq<(I, T)>)
      requires Inv() && forall i :: 0 <= i < |pairs| ==> ranker(pairs[i].1, data).Ranked?
      ensures var after := PutEvaluatedTasks(pairs);
              && after.Inv()
              && after.ranker == ranker && after.data == data && after.revision == revision
              && after.tasks.Keys == tasks.Keys + Ids(pairs)
      decreases |pairs|
    {
      if pairs != [] {
        var evaluation := ranker(pairs[0].1, data);
        PutEvaluatedTaskInv(pairs[0].0, pairs[0].1, evaluation.rank, evaluation.keys);
        PutEvaluatedTask(pairs[0].0, pairs[0].1, evaluation.rank, evaluation.keys).PutEvaluatedTasksInv(pairs[1..]);
      }
    }

    /** A pending task's payload is the one it was last put with. */
    lemma {:induction false} PutEvaluatedTasksData(pairs: seq<(I, T)>, id: I)
      requires Inv() && forall i :: 0 <= i < |pairs| ==> ranker(pairs[i].1, data).Ranked?
      requires id in PutEvaluatedTasks(pairs).tasks
      ensures var data := PutEvaluatedTasks(pairs).tasks[id].data;
              (id in tasks && data == tasks[id].data) || (id, data) in pairs
      decreases |pairs|
    {
      if pairs != [] {
        var evaluation := ranker(pairs[0].1, data);
        PutEvaluatedTaskInv(pairs[0].0, pairs[0].1, evaluation.rank, evaluation.keys);
        PutEvaluatedTask(pairs[0].0, pairs[0].1, evaluation.rank, evaluation.keys).PutEvaluatedTasksData(pairs[1..], id);
      }
    }

    lemma DeleteTaskInv(id: I)
      requires Inv()
      ensures DeleteTask(id).Inv() && DeleteTask(id).tasks == tasks - {id}
    {
      RemoveTaskIsCoherent(id);
      var after := DeleteTask(id);
      forall other | other in after.tasks ensures after.FreshTask(other) {
        assert FreshTask(other);
      }
    }

    // -- Reranking ----------------------------------------------------------------------------

    ghost predicate OnlyTasksChange(after: Scheduler<I, T, K, V>) {
      && after.ranker == ranker && after.data == data
      && after.revision == revision && after.nextSequence == nextSequence
    }

    /** One replacement touches one item, and only its rank, dependencies and revision. */
    lemma ReplaceEvaluationIsCoherent(id: I)
      requires Coherent() && CanReplace([id])
      ensures ReplaceEvaluation(id).Coherent()
      ensures OnlyTasksChange(ReplaceEvaluation(id))
      ensures ReplaceEvaluation(id).tasks == tasks[id := Reevaluated(id)]
    {
      assert id in [id];
      RemoveTaskIsCoherent(id);
      RemoveTask(id).AddTaskIsCoherent(id, Reevaluated(id));
      assert (tasks - {id})[id := Reevaluated(id)] == tasks[id := Reevaluated(id)];
    }

    /** The item with a from-scratch evaluation against the current data. */
    function Reevaluated(id: I): Item<T, K>
      requires id in tasks && ranker(tasks[id].data, data).Ranked?
    {
      var evaluation := ranker(tasks[id].data, data);
      tasks[id].(rank := evaluation.rank, dependencies := evaluation.keys, evaluatedAt := revision)
    }

    ghost function Reranked(order: seq<I>): map<I, Item<T, K>>
      requires CanReplace(order)
    {
      map id | id in tasks :: if id in order then Reevaluated(id) else tasks[id]
    }

    lemma RerankOneMore(order: seq<I>, next: Scheduler<I, T, K, V>)
      requires order != [] && CanReplace(order) && next.ranker == ranker && next.data == data
      requires next.revision == revision && next.tasks == tasks[order[0] := Reevaluated(order[0])]
      ensures next.CanReplace(order[1..])
      ensures next.Reranked(order[1..]) == Reranked(order)
    {
      assert forall id :: id in order <==> id == order[0] || id in order[1..];
    }

    lemma {:induction false} ReplaceInOrderIsReranked(order: seq<I>)
      requires Coherent() && CanReplace(order)
      ensures ReplaceInOrder(order).Coherent()
      ensures OnlyTasksChange(ReplaceInOrder(order))
      ensures ReplaceInOrder(order).tasks == Reranked(order)
      decreases |order|
    {
      if order == [] {
        assert Reranked(order) == tasks;
      } else {
        ReplaceEvaluationIsCoherent(order[0]);
        var next := ReplaceEvaluation(order[0]);
        RerankOneMore(order, next);
        next.ReplaceInOrderIsReranked(order[1..]);
      }
    }

    /** Applying a batch of evaluations gives one result, however the batch is enumerated. */
    lemma RerankIsOrderIndependent(order: seq<I>, other: seq<I>)
      requires Coherent() && CanReplace(order)
      requires forall id :: id in order <==> id in other
      ensures CanReplace(other) && ReplaceInOrder(order) == ReplaceInOrder(other)
    {
      ReplaceInOrderIsReranked(order);
      ReplaceInOrderIsReranked(other);
      assert Reranked(order) == Reranked(other);
      ReplaceInOrder(order).CoherentIsUnique(ReplaceInOrder(other));
    }

    ghost predicate ReadsChanged(id: I, newData: map<K, V>)
      requires id in tasks
    {
      exists key :: key in tasks[id].dependencies && Fetch(data, key) != Fetch(newData, key)
    }

    /** What a data change must produce: every pending task evaluated from scratch against the new data. */
    ghost predicate IsRecomputed(newData: map<K, V>, after: Scheduler<I, T, K, V>) {
      && after.ranker == ranker && after.data == newData && after.nextSequence == nextSequence
      && after.tasks.Keys == tasks.Keys
      && forall id :: id in tasks ==>
           && ranker(tasks[id].data, newData) == Ranked(after.tasks[id].rank, after.tasks[id].dependencies)
           && after.tasks[id].data == tasks[id].data && after.tasks[id].sequence == tasks[id].sequence
           && after.tasks[id].evaluatedAt == if ReadsChanged(id, newData) then after.revision else tasks[id].evaluatedAt
    }

    lemma UnreadChangeKeepsRank(id: I, newData: map<K, V>)
      requires Fresh() && Tracked(ranker) && id in tasks && !ReadsChanged(id, newData)
      ensures ranker(tasks[id].data, newData) == Ranked(tasks[id].rank, tasks[id].dependencies)
    {
      assert FreshTask(id);
    }

    ghost predicate IsAffected(newData: map<K, V>, order: seq<I>) {
      forall id :: id in order <==> id in tasks && ReadsChanged(id, newData)
    }

    lemma RerankedIsFresh(newData: map<K, V>, order: seq<I>)
      requires Inv() && IsAffected(newData, order) && WithData(newData).CanReplace(order)
      ensures forall id :: id in tasks ==>
                var item := WithData(newData).Reranked(order)[id];
                && ranker(tasks[id].data, newData) == Ranked(item.rank, item.dependencies)
                && item.data == tasks[id].data && item.sequence == tasks[id].sequence
                && item.evaluatedAt == if ReadsChanged(id, newData) then revision + 1 else tasks[id].evaluatedAt
    {
      forall id | id in tasks && id !in order
        ensures ranker(tasks[id].data, newData) == Ranked(tasks[id].rank, tasks[id].dependencies)
      {
        UnreadChangeKeepsRank(id, newData);
      }
    }

    lemma RerankAffected(newData: map<K, V>, order: seq<I>)
      requires Inv() && IsAffected(newData, order) && WithData(newData).CanReplace(order)
      ensures var after := WithData(newData).ReplaceInOrder(order);
              after.Inv() && IsRecomputed(newData, after) && after.revision == revision + 1
    {
      UpdatedIsCoherent(newData);
      WithData(newData).ReplaceInOrderIsReranked(order);
      RerankedIsFresh(newData, order);
      WithData(newData).ReplaceInOrder(order).RecomputedInv(this);
    }

    lemma RecomputedInv(before: Scheduler<I, T, K, V>)
      requires before.Inv() && Coherent() && before.IsRecomputed(data, this)
      ensures Inv()
    {
      forall id | id in tasks ensures FreshTask(id) && tasks[id].sequence < nextSequence {
        assert id in before.tasks;
      }
    }

    /**
      Changing data reranks incrementally, yet fails exactly when some pending task, whether or not it read
      a changed key, cannot be ranked on the new data, and otherwise equals full recomputation. Only tasks
      that read a changed key carry the new revision.
     */
    lemma ApplyDataChangeRecomputes(newData: map<K, V>, changed: set<K>)
      requires Inv()
      requires forall key :: key in changed <==> Fetch(data, key) != Fetch(newData, key)
      ensures var result := ApplyDataChange(newData, changed);
              && (result.RankError? <==> exists id :: id in tasks && ranker(tasks[id].data, newData).Raised?)
              && (result.Ok? ==>
                    && result.value.Inv()
                    && IsRecomputed(newData, result.value)
                    && result.value.revision == if changed == {} then revision else revision + 1)
    {
      forall id | id in tasks && !ReadsChanged(id, newData)
        ensures ranker(tasks[id].data, newData) == Ranked(tasks[id].rank, tasks[id].dependencies)
      {
        UnreadChangeKeepsRank(id, newData);
      }
      if changed == {} {
        SameData(newData);
      } else {
        var affected := Affected(changed);
        forall id ensures id in affected <==> id in tasks && ReadsChanged(id, newData) {
          AffectedReadsChanged(id, newData, changed);
        }
        var order := Enumerate(affected);
        if WithData(newData).CanReplace(order) {
          RerankAffected(newData, order);
        }
      }
    }

    lemma SameData(newData: map<K, V>)
      requires forall key :: Fetch(data, key) == Fetch(newData, key)
      ensures newData == data
    {
      forall key ensures key in data <==> key in newData
                 ensures key in data ==> data[key] == newData[key]
      {
        assert Fetch(data, key) == Fetch(newData, key);
      }
    }

    lemma UpdatedIsCoherent(newData: map<K, V>)
      requires Coherent()
      ensures WithData(newData).Coherent()
    {
      var updated := WithData(newData);
      assert forall id, key :: updated.DependsOn(id, key) == DependsOn(id, key);
    }

    lemma AffectedReadsChanged(id: I, newData: map<K, V>, changed: set<K>)
      requires Coherent()
      requires forall key :: key in changed <==> Fetch(data, key) != Fetch(newData, key)
      ensures id in Affected(changed) <==> id in tasks && ReadsChanged(id, newData)
    {
      if id in Affected(changed) {
        var key :| key in changed && key in dependents && id in dependents[key];
        assert DependsOn(id, key);
      }
      if id in tasks && ReadsChanged(id, newData) {
        var key :| key in tasks[id].dependencies && Fetch(data, key) != Fetch(newData, key);
        assert DependsOn(id, key);
      }
    }

    lemma PutDataRecomputes(values: map<K, V>)
      requires Inv()
      ensures var newData, result := data + values, PutData(values);
              && (result.RankError? <==> exists id :: id in tasks && ranker(tasks[id].data, newData).Raised?)
              && (result.Ok? ==> result.value.Inv() && IsRecomputed(newData, result.value))
    {
      var changed := map key | key in values && Fetch(data, key) != Some(values[key]) :: values[key];
      assert data + changed == data + values;
      ApplyDataChangeRecomputes(data + changed, changed.Keys);
    }

    lemma DeleteDataRecomputes(key: K)
      requires Inv()
      ensures var newData, result := data - {key}, DeleteData(key);
              && (result.RankError? <==> exists id :: id in tasks && ranker(tasks[id].data, newData).Raised?)
              && (result.Ok? ==> result.value.Inv() && IsRecomputed(newData, result.value))
    {
      if key in data {
        ApplyDataChangeRecomputes(data - {key}, {key});
      } else {
        assert data - {key} == data;
        assert forall id :: id in tasks ==> FreshTask(id);
      }
    }

    // -- Dispatch order -----------------------------------------------------------------------

    lemma PopInv()
      requires Inv()
      ensures queue == [] <==> tasks == map[]
      ensures queue == [] ==> Pop() == None
      ensures queue != [] ==>
        var id := queue[|queue| - 1].1;
        && id in tasks && Pop().Some?
        && Pop().value.0 == Popped(id, tasks[id].data, tasks[id].rank)
        && Pop().value.1.Inv() && Pop().value.1.tasks == tasks - {id}
        && Pop().value.1.queue == queue[..|queue| - 1] && Pop().value.1.data == data
        && Pop().value.1.ranker == ranker
    {
      HasMember(queue);
      if queue == [] {
        assert forall id :: id in tasks ==> (KeyOf(tasks[id]), id) in queue;
      } else {
        var entry := queue[|queue| - 1];
        assert entry in queue;
        LessIsStrict();
        InitIsSorted(queue, Less);
        var after := Pop().value.1;
        RemoveDependenciesIsIndexed(entry.1);
        forall key, id ensures after.DependsOn(id, key) == RemoveTask(entry.1).DependsOn(id, key) {
        }
        forall id | id in after.tasks ensures after.FreshTask(id) { assert FreshTask(id); }
        assert after.InQueueOrder();
      }
    }

    static function PoppedIds(popped: seq<Popped<I, T>>): set<I> {
      if popped == [] then {} else {popped[0].id} + PoppedIds(popped[1..])
    }

    /** What is popped is gone, and nothing else: all other tasks are as they were. */
    lemma {:induction false} PopManyInv(count: nat)
      requires Inv()
      ensures var (popped, rest) := PopMany(count);
              && rest.Inv() && rest.data == data && rest.ranker == ranker
              && PoppedIds(popped) <= tasks.Keys && rest.tasks == tasks - PoppedIds(popped)
      decreases count
    {
      PopInv();
      if count > 0 && queue != [] {
        var next := Pop().value.1;
        next.PopManyInv(count - 1);
        assert PopMany(count).0[1..] == next.PopMany(count - 1).0;
      }
    }

    lemma {:induction false} PopManyQueue(count: nat)
      requires Inv()
      ensures var (popped, rest) := PopMany(count);
              && |popped| == (if count <= |queue| then count else |queue|)
              && rest.queue == queue[..|queue| - |popped|]
      decreases count
    {
      PopInv();
      if count > 0 && queue != [] {
        var next := Pop().value.1;
        next.PopManyQueue(count - 1);
        var kept := |queue| - |PopMany(count).0|;
        assert queue[..|queue| - 1][..kept] == queue[..kept];
      }
    }

    /** The task popped at place `i` is the one at that place from the end of the queue. */
    ghost predicate PopsAt(popped: seq<Popped<I, T>>, i: nat)
      requires i < |queue|
    {
      var id := queue[|queue| - 1 - i].1;
      i < |popped| && id in tasks && popped[i] == Popped(id, tasks[id].data, tasks[id].rank)
    }

    lemma PopsNextAt(next: Scheduler<I, T, K, V>, first: Popped<I, T>, others: seq<Popped<I, T>>, i: nat)
      requires Inv() && queue != [] && Pop() == Some((first, next))
      requires 0 < i < |queue| && i - 1 < |next.queue| && next.PopsAt(others, i - 1)
      ensures PopsAt([first] + others, i)
    {
      PopInv();
      assert next.queue[|next.queue| - 1 - (i - 1)] == queue[|queue| - 1 - i];
    }

    lemma {:induction false} PopManyAt(count: nat, i: nat)
      requires Inv() && i < count && i < |queue|
      ensures PopsAt(PopMany(count).0, i)
      decreases count
    {
      PopInv();
      if i > 0 {
        var (first, next) := Pop().value;
        next.PopManyAt(count - 1, i - 1);
        PopsNextAt(next, first, next.PopMany(count - 1).0, i);
      }
    }

    /** Greatest rank first; equal ranks in insertion order. */
    ghost predicate Precedes(a: I, b: I)
      requires a in tasks && b in tasks
    {
      var order := Compare(tasks[a].rank, tasks[b].rank);
      order > 0 || (order == 0 && tasks[a].sequence < tasks[b].sequence)
    }

    ghost predicate IsSortOf(order: seq<I>) {
      && (forall id :: id in order <==> id in tasks)
      && forall i, j {:trigger Precedes(order[i], order[j])} :: 0 <= i < j < |order| ==> Precedes(order[i], order[j])
    }

    function Entry(id: I): (QueueKey, I)
      requires id in tasks
    {
      (KeyOf(tasks[id]), id)
    }

    lemma EntriesReversedAreSorted(order: seq<I>, reversed: Queue<QueueKey, I>)
      requires IsSortOf(order) && |reversed| == |order|
      requires forall i :: 0 <= i < |order| ==> order[i] in tasks && reversed[|order| - 1 - i] == Entry(order[i])
      ensures Sorted(reversed, Less)
    {
      var n := |order|;
      forall i, j | 0 <= i < j < n ensures Less(reversed[i].0, reversed[j].0) {
        var a, b := order[n - 1 - j], order[n - 1 - i];
        assert Precedes(a, b) && reversed[j] == Entry(a) && reversed[i] == Entry(b);
        CompareSymmetric(tasks[a].rank, tasks[b].rank);
      }
    }

    lemma EntriesReversedAreQueued(order: seq<I>, reversed: Queue<QueueKey, I>)
      requires InQueueOrder() && IsSortOf(order) && |reversed| == |order|
      requires forall i :: 0 <= i < |order| ==> order[i] in tasks && reversed[|order| - 1 - i] == Entry(order[i])
      ensures forall e: (QueueKey, I) :: e in reversed <==> e in queue
    {
      var n := |order|;
      forall e: (QueueKey, I) ensures e in reversed <==> e in queue {
        if e in queue {
          assert e.1 in order;
          var k :| 0 <= k < n && order[k] == e.1;
          assert reversed[n - 1 - k] == e;
        }
        if e in reversed {
          var k :| 0 <= k < n && reversed[k] == e;
          assert reversed[n - 1 - (n - 1 - k)] == Entry(order[n - 1 - k]);
        }
      }
    }

    lemma EntriesReversedAreTheQueue(order: seq<I>, reversed: Queue<QueueKey, I>)
      requires InQueueOrder() && IsSortOf(order) && |reversed| == |order|
      requires forall i :: 0 <= i < |order| ==> order[i] in tasks && reversed[|order| - 1 - i] == Entry(order[i])
      ensures reversed == queue
    {
      EntriesReversedAreSorted(order, reversed);
      EntriesReversedAreQueued(order, reversed);
      LessIsStrict();
      SortedIsUnique(reversed, queue, Less);
    }

    function ReversedEntries(order: seq<I>): (reversed: Queue<QueueKey, I>)
      requires forall i :: 0 <= i < |order| ==> order[i] in tasks
      ensures |reversed| == |order|
      ensures forall i :: 0 <= i < |order| ==> reversed[|order| - 1 - i] == Entry(order[i])
    {
      if order == [] then [] else ReversedEntries(order[1..]) + [Entry(order[0])]
    }

    lemma SortIsReversedQueue(order: seq<I>)
      requires InQueueOrder() && IsSortOf(order)
      ensures |order| == |queue|
      ensures forall i :: 0 <= i < |order| ==> order[i] == queue[|queue| - 1 - i].1
    {
      assert forall i :: 0 <= i < |order| ==> order[i] in order;
      EntriesReversedAreTheQueue(order, ReversedEntries(order));
    }

    /** Popping `count` tasks yields the first `count` of the sort by rank, ties by insertion, and nothing else. */
    lemma PopManyIsFirstOfTheSort(count: nat, order: seq<I>)
      requires Inv() && IsSortOf(order)
      ensures var popped, n := PopMany(count).0, if count <= |order| then count else |order|;
              && |popped| == n
              && forall i :: 0 <= i < n ==>
                   && order[i] in tasks
                   && popped[i] == Popped(order[i], tasks[order[i]].data, tasks[order[i]].rank)
    {
      SortIsReversedQueue(order);
      PopManyQueue(count);
      forall i | 0 <= i < |PopMany(count).0|
        ensures order[i] in tasks
        ensures PopMany(count).0[i] == Popped(order[i], tasks[order[i]].data, tasks[order[i]].rank)
      {
        PopManyAt(count, i);
      }
    }

    /** The queue descends from its end: no task before another in it outranks that, and ties are in insertion order. */
    lemma QueueDescends(i: nat, j: nat)
      requires Inv() && i < j < |queue|
      ensures queue[i].1 in tasks && queue[j].1 in tasks
      ensures var low, high := tasks[queue[i].1], tasks[queue[j].1];
              && Compare(low.rank, high.rank) <= 0
              && (Compare(low.rank, high.rank) == 0 ==> high.sequence < low.sequence)
              && (low.rank.Integer? && high.rank.Integer? ==> low.rank.n <= high.rank.n)
              && (low.rank == high.rank ==> high.sequence < low.sequence)
    {
      assert queue[i] in queue && queue[j] in queue;
      assert Less(queue[i].0, queue[j].0);
      var low, high := tasks[queue[i].1].rank, tasks[queue[j].1].rank;
      CompareSymmetric(low, high);
      if low.Integer? && high.Integer? { NumbersAscend(high.n, low.n, 0.0, 0.0); }
    }

    lemma PlaceOf(id: I) returns (k: nat)
      requires Inv() && id in tasks
      ensures k < |queue| && queue[k].1 == id
    {
      assert (KeyOf(tasks[id]), id) in queue;
      k :| 0 <= k < |queue| && queue[k] == (KeyOf(tasks[id]), id);
    }

    /** From one popped task to the next ranks do not ascend: integers, say, by value, and equal ranks keep insertion order. */
    lemma PopManyDescends(count: nat, i: nat)
      requires Inv() && i + 1 < |PopMany(count).0|
      ensures var first, second := PopMany(count).0[i], PopMany(count).0[i + 1];
              && Compare(first.rank, second.rank) >= 0
              && (first.rank.Integer? && second.rank.Integer? ==> first.rank.n >= second.rank.n)
              && first.id in tasks && second.id in tasks
              && (first.rank == second.rank ==> tasks[first.id].sequence < tasks[second.id].sequence)
    {
      PopManyQueue(count);
      PopManyAt(count, i);
      PopManyAt(count, i + 1);
      NextPoppedDescends(PopMany(count).0, i);
    }

    lemma NextPoppedDescends(popped: seq<Popped<I, T>>, i: nat)
      requires Inv() && i + 1 < |queue| && PopsAt(popped, i) && PopsAt(popped, i + 1)
      ensures var first, second := popped[i], popped[i + 1];
              && Compare(first.rank, second.rank) >= 0
              && (first.rank.Integer? && second.rank.Integer? ==> first.rank.n >= second.rank.n)
              && first.id in tasks && second.id in tasks
              && (first.rank == second.rank ==> tasks[first.id].sequence < tasks[second.id].sequence)
    {
      QueueDescends(|queue| - 2 - i, |queue| - 1 - i);
      CompareSymmetric(popped[i].rank, popped[i + 1].rank);
    }

    /** The task popped at place `i` outranks what is nearer to the front of the queue. */
    lemma PoppedIsAbove(popped: seq<Popped<I, T>>, i: nat, k: nat, other: I)
      requires Inv() && k + i + 1 < |queue| && PopsAt(popped, i) && queue[k].1 == other
      ensures var first := popped[i];
              && other in tasks && first.id in tasks && first.rank == tasks[first.id].rank
              && Compare(first.rank, tasks[other].rank) >= 0
              && (first.rank.Integer? && tasks[other].rank.Integer? ==> first.rank.n >= tasks[other].rank.n)
              && (first.rank == tasks[other].rank ==> tasks[first.id].sequence < tasks[other].sequence)
    {
      QueueDescends(k, |queue| - 1 - i);
      CompareSymmetric(popped[i].rank, tasks[other].rank);
    }

    /** No task that is left outranks one that was popped. */
    lemma PopManyLeavesTheLowest(count: nat, i: nat, other: I)
      requires Inv() && i < |PopMany(count).0| && other in PopMany(count).1.tasks
      ensures var first := PopMany(count).0[i];
              && other in tasks && first.id in tasks && first.rank == tasks[first.id].rank
              && Compare(first.rank, tasks[other].rank) >= 0
              && (first.rank.Integer? && tasks[other].rank.Integer? ==> first.rank.n >= tasks[other].rank.n)
              && (first.rank == tasks[other].rank ==> tasks[first.id].sequence < tasks[other].sequence)
    {
      PopManyInv(count);
      PopManyQueue(count);
      PopManyAt(count, i);
      var rest := PopMany(count).1;
      var k := rest.PlaceOf(other);
      assert queue[k] == rest.queue[k];
      PoppedIsAbove(PopMany(count).0, i, k, other);
    }

    // -- Whole runs ---------------------------------------------------------------------------

    /** One call; a call that reports an error leaves the scheduler as it was. */
    ghost function Apply(operation: Operation<I, T, K, V>): Scheduler<I, T, K, V> {
      match operation
      case PutOne(id, task) => OrUnchanged(PutTask(id, task))
      case PutAll(pairs) => OrUnchanged(PutTasks(pairs))
      case ChangeData(values) => OrUnchanged(PutData(values))
      case DropData(key) => OrUnchanged(DeleteData(key))
      case Drop(id) => DeleteTask(id)
      case Dispatch(count) => PopMany(count).1
    }

    function OrUnchanged(result: Result<Scheduler<I, T, K, V>>): Scheduler<I, T, K, V> {
      if result.Ok? then result.value else this
    }

    ghost function Run(operations: seq<Operation<I, T, K, V>>): Scheduler<I, T, K, V> {
      if operations == [] then this
      else Run(operations[..|operations| - 1]).Apply(operations[|operations| - 1])
    }

    lemma ApplyInv(operation: Operation<I, T, K, V>)
      requires Inv()
      ensures Apply(operation).Inv()
    {
      match operation
      case PutOne(id, task) =>
        var evaluation := ranker(task, data);
        if evaluation.Ranked? { PutEvaluatedTaskInv(id, task, evaluation.rank, evaluation.keys); }
      case PutAll(pairs) =>
        if PutTasks(pairs).Ok? { PutEvaluatedTasksInv(pairs); }
      case ChangeData(values) => PutDataRecomputes(values);
      case DropData(key) => DeleteDataRecomputes(key);
      case Drop(id) => DeleteTaskInv(id);
      case Dispatch(count) => PopManyInv(count);
    }

    /**
      After any sequence of calls on a new scheduler, every pending task's cached rank and dependencies are
      those of a fresh evaluation, and queue, tasks and index agree.
     */
    lemma {:induction false} EveryRunIsFresh(operations: seq<Operation<I, T, K, V>>)
      requires this == New(ranker, data) && Tracked(ranker)
      ensures Run(operations).Inv()
    {
      if operations == [] {
        NewInv();
      } else {
        EveryRunIsFresh(operations[..|operations| - 1]);
        Run(operations[..|operations| - 1]).ApplyInv(operations[|operations| - 1]);
      }
    }
  }

  datatype Operation<I, T, K(==), V> =
    | PutOne(id: I, task: T)
    | PutAll(pairs: seq<(I, T)>)
    | ChangeData(values: map<K, V>)
    | DropData(key: K)
    | Drop(id: I)
    | Dispatch(count: nat)
}
