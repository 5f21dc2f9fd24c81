/** An ordered tree of keys, as its in-order listing: what the coordinator's queue relies on. */
module OrderedQueues {

  type Queue<Q, I> = seq<(Q, I)>

  ghost predicate StrictOrder<Q(!new)>(less: (Q, Q) -> bool) {
    && (forall a :: !less(a, a))
    && (forall a, b, c :: less(a, b) && less(b, c) ==> less(a, c))
  }

  ghost predicate Sorted<Q, I>(queue: Queue<Q, I>, less: (Q, Q) -> bool) {
    forall i, j {:trigger less(queue[i].0, queue[j].0)} :: 0 <= i < j < |queue| ==> less(queue[i].0, queue[j].0)
  }

  /** No key of the queue compares equal to `key`, which is when the tree accepts an insertion. */
  ghost predicate NoCollision<Q, I>(queue: Queue<Q, I>, key: Q, less: (Q, Q) -> bool) {
    forall e: (Q, I) :: e in queue ==> less(key, e.0) || less(e.0, key)
  }

  function Insert<Q, I>(queue: Queue<Q, I>, entry: (Q, I), less: (Q, Q) -> bool): Queue<Q, I> {
    if queue == [] || less(entry.0, queue[0].0) then [entry] + queue
    else [queue[0]] + Insert(queue[1..], entry, less)
  }

  /** Removes the entry whose key compares equal, if there is one. */
  function DeleteAny<Q, I>(queue: Queue<Q, I>, key: Q, less: (Q, Q) -> bool): Queue<Q, I> {
    if queue == [] then []
    else if !less(queue[0].0, key) && !less(key, queue[0].0) then queue[1..]
    else [queue[0]] + DeleteAny(queue[1..], key, less)
  }

  lemma HeadIsLeast<Q(!new), I(!new)>(queue: Queue<Q, I>, less: (Q, Q) -> bool)
    requires StrictOrder(less) && Sorted(queue, less) && queue != []
    ensures Sorted(queue[1..], less)
    ensures forall e: (Q, I) :: e in queue[1..] ==> less(queue[0].0, e.0)
    ensures queue[0] !in queue[1..]
    ensures forall e: (Q, I) :: e in queue <==> e == queue[0] || e in queue[1..]
  {
    assert queue == [queue[0]] + queue[1..];
  }

  lemma ConsIsSorted<Q(!new), I(!new)>(entry: (Q, I), queue: Queue<Q, I>, less: (Q, Q) -> bool)
    requires Sorted(queue, less) && forall e: (Q, I) :: e in queue ==> less(entry.0, e.0)
    ensures Sorted([entry] + queue, less)
  {
    var all := [entry] + queue;
    forall i, j | 0 <= i < j < |all| ensures less(all[i].0, all[j].0) {
      assert all[j] == queue[j - 1] && queue[j - 1] in queue;
    }
  }

  lemma {:induction false} InsertIsSorted<Q(!new), I(!new)>(queue: Queue<Q, I>, entry: (Q, I), less: (Q, Q) -> bool)
    requires StrictOrder(less) && Sorted(queue, less) && NoCollision(queue, entry.0, less)
    ensures Sorted(Insert(queue, entry, less), less)
    ensures forall e: (Q, I) :: e in Insert(queue, entry, less) <==> e == entry || e in queue
  {
    if queue != [] {
      HeadIsLeast(queue, less);
      if less(entry.0, queue[0].0) {
        ConsIsSorted(entry, queue, less);
      } else {
        InsertIsSorted(queue[1..], entry, less);
        assert queue[0] in queue;
        ConsIsSorted(queue[0], Insert(queue[1..], entry, less), less);
      }
    }
  }

  lemma {:induction false} DeleteIsSorted<Q(!new), I(!new)>(queue: Queue<Q, I>, entry: (Q, I), less: (Q, Q) -> bool)
    requires StrictOrder(less) && Sorted(queue, less) && entry in queue
    ensures Sorted(DeleteAny(queue, entry.0, less), less)
    ensures forall e: (Q, I) :: e in DeleteAny(queue, entry.0, less) <==> e in queue && e != entry
  {
    HeadIsLeast(queue, less);
    if queue[0] != entry {
      DeleteIsSorted(queue[1..], entry, less);
      ConsIsSorted(queue[0], DeleteAny(queue[1..], entry.0, less), less);
    }
  }

  lemma HasMember<E>(s: seq<E>)
    ensures s == [] || exists e :: e in s
  {
    if s != [] { assert s[0] in s; }
  }

  /** A listing sorted by a strict order is determined by its members. */
  lemma {:induction false} SortedIsUnique<Q(!new), I(!new)>(a: Queue<Q, I>, b: Queue<Q, I>, less: (Q, Q) -> bool)
    requires StrictOrder(less) && Sorted(a, less) && Sorted(b, less)
    requires forall e: (Q, I) :: e in a <==> e in b
    ensures a == b
  {
    HasMember(a);
    HasMember(b);
    if a != [] && b != [] {
      assert a[0] in b && b[0] in a;
      HeadIsLeast(a, less);
      HeadIsLeast(b, less);
      assert a[0] == b[0];
      SortedIsUnique(a[1..], b[1..], less);
      assert a == [a[0]] + a[1..] && b == [b[0]] + b[1..];
    }
  }

  /** Dropping the last entry keeps the order and removes just that entry. */
  lemma InitIsSorted<Q(!new), I(!new)>(queue: Queue<Q, I>, less: (Q, Q) -> bool)
    requires StrictOrder(less) && Sorted(queue, less) && queue != []
    ensures Sorted(queue[..|queue| - 1], less)
    ensures forall e: (Q, I) :: e in queue[..|queue| - 1] <==> e in queue && e != queue[|queue| - 1]
  {
    var last := queue[|queue| - 1];
    assert queue == queue[..|queue| - 1] + [last];
    var init := queue[..|queue| - 1];
    forall e: (Q, I) | e in init ensures e != last {
      var i :| 0 <= i < |queue| - 1 && queue[i] == e;
      assert less(queue[i].0, queue[|queue| - 1].0);
    }
  }
}
