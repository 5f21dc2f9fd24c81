/** What the window's size tree holds when the completion journal of a store is fed to it. */
module TreeFeeds {
  import opened Options
  import opened SizeTrees
  import opened StoreModel
  import opened Words
  import Drains

  // -- Ways in a store --------------------------------------------------------------------------------

  /** The IDs from the root down to a directory. */
  ghost function Way<B>(store: Store<B>, id: nat): (way: seq<nat>)
    requires store.TreeShape() && id < |store.records|
    ensures way != [] && way[|way| - 1] == id
    decreases id
  {
    if id == ROOT then [ROOT]
    else
      assert store.Linked(id);
      Way(store, store.records[id].parent) + [id]
  }

  predicate WayAt(way: seq<nat>, i: nat, id: nat)
    requires i < |way|
  {
    way[i] <= id && (i > 0 ==> way[i - 1] < way[i])
  }

  /** IDs grow along a way. */
  lemma {:induction false} WayGrows<B>(store: Store<B>, id: nat)
    requires store.TreeShape() && id < |store.records|
    ensures forall i :: 0 <= i < |Way(store, id)| ==> WayAt(Way(store, id), i, id)
    decreases id
  {
    if id != ROOT {
      assert store.Linked(id);
      var parent := store.records[id].parent;
      WayGrows(store, parent);
      var above, way := Way(store, parent), Way(store, id);
      forall i | 0 <= i < |way| ensures WayAt(way, i, id) {
        if i < |above| { assert WayAt(above, i, parent); }
      }
    }
  }

  /** The way to a directory goes on from the way to each of its ancestors. */
  lemma {:induction false} WayThrough<B>(store: Store<B>, id: nat, x: nat)
    requires store.TreeShape() && id < |store.records| && x in Way(store, id)
    ensures x <= id && Way(store, x) <= Way(store, id)
    decreases id
  {
    if x != id {
      assert store.Linked(id);
      WayThrough(store, store.records[id].parent, x);
    }
  }

  lemma {:induction false} RootIsOnEveryWay<B>(store: Store<B>, id: nat)
    requires store.TreeShape() && id < |store.records|
    ensures ROOT in Way(store, id)
    decreases id
  {
    if id != ROOT {
      assert store.Linked(id);
      RootIsOnEveryWay(store, store.records[id].parent);
    }
  }

  /** `id` is at or below `x`, but so far below that the walk upward ends before `x`. */
  ghost predicate TooDeep<B>(store: Store<B>, id: nat, x: nat)
    requires store.TreeShape() && id < |store.records|
  {
    x in Way(store, id) && x < |store.records| && |Way(store, id)| - |Way(store, x)| >= MAX_DEPTH
  }

  lemma ReachedAbove<B>(store: Store<B>, id: nat, x: nat)
    requires store.TreeShape() && id < |store.records|
    ensures x in Reached(Way(store, id), MAX_DEPTH) <==> x in Way(store, id) && !TooDeep(store, id, x)
  {
    var way := Way(store, id);
    if x in way {
      WayThrough(store, id, x);
      var at := |Way(store, x)| - 1;
      assert way[at] == x;
      WayGrows(store, id);
      forall i | 0 <= i < |way| && way[i] == x ensures i == at { OnceOnTheWay(way, id, i, at); }
      if at >= |way| - MAX_DEPTH && |way| > MAX_DEPTH { assert Reached(way, MAX_DEPTH)[at - (|way| - MAX_DEPTH)] == x; }
    }
  }

  lemma OnceOnTheWay(way: seq<nat>, id: nat, i: nat, j: nat)
    requires i < |way| && j < |way| && way[i] == way[j] && forall k :: 0 <= k < |way| ==> WayAt(way, k, id)
    ensures i == j
  {
    if i < j { Rises(way, id, i, j); }
    if j < i { Rises(way, id, j, i); }
  }

  lemma {:induction false} Rises(way: seq<nat>, id: nat, i: nat, j: nat)
    requires i < j < |way| && forall k :: 0 <= k < |way| ==> WayAt(way, k, id)
    ensures way[i] < way[j]
    decreases j
  {
    assert WayAt(way, j, id);
    if i < j - 1 { Rises(way, id, i, j - 1); }
  }

  // -- Sums over directories --------------------------------------------------------------------------

  predicate Inside<B>(store: Store<B>, ids: seq<nat>) {
    forall i :: 0 <= i < |ids| ==> ids[i] < |store.records|
  }

  lemma JournalIsInside<B>(store: Store<B>)
    requires store.JournalOrder()
    ensures Inside(store, store.journal)
  {
    forall i | 0 <= i < |store.journal| ensures store.journal[i] < |store.records| { assert store.ParentsFirst(i); }
  }

  /** The bytes of all listed directories that lie at or below `x`. */
  ghost function BytesBelow<B>(store: Store<B>, ids: seq<nat>, bytes: nat -> nat, x: nat): nat
    requires store.TreeShape() && Inside(store, ids)
  {
    if ids == [] then 0
    else
      var last := ids[|ids| - 1];
      BytesBelow(store, ids[..|ids| - 1], bytes, x) + if x in Way(store, last) then bytes(last) else 0
  }

  /** What one directory gives to `x`. */
  ghost function Share<B>(store: Store<B>, id: nat, bytes: nat -> nat, x: nat): nat
    requires store.TreeShape() && id < |store.records|
  {
    if x in Reached(Way(store, id), MAX_DEPTH) then bytes(id) else 0
  }

  /** The bytes of those that are not too deep below `x`. */
  ghost function BytesInReach<B>(store: Store<B>, ids: seq<nat>, bytes: nat -> nat, x: nat): nat
    requires store.TreeShape() && Inside(store, ids)
  {
    if ids == [] then 0
    else BytesInReach(store, ids[..|ids| - 1], bytes, x) + Share(store, ids[|ids| - 1], bytes, x)
  }

  ghost predicate IsMissed<B>(store: Store<B>, id: nat, bytes: nat -> nat, x: nat)
    requires store.TreeShape() && id < |store.records|
  {
    TooDeep(store, id, x) && bytes(id) > 0
  }

  ghost predicate MissesNone<B>(store: Store<B>, ids: seq<nat>, bytes: nat -> nat, x: nat)
    requires store.TreeShape() && Inside(store, ids)
  {
    forall i :: 0 <= i < |ids| ==> !IsMissed(store, ids[i], bytes, x)
  }

  lemma {:induction false} InReachIsBelow<B>(store: Store<B>, ids: seq<nat>, bytes: nat -> nat, x: nat)
    requires store.TreeShape() && Inside(store, ids)
    ensures BytesInReach(store, ids, bytes, x) <= BytesBelow(store, ids, bytes, x)
    ensures BytesInReach(store, ids, bytes, x) == BytesBelow(store, ids, bytes, x) <==> MissesNone(store, ids, bytes, x)
  {
    if ids != [] {
      var init, last := ids[..|ids| - 1], ids[|ids| - 1];
      InReachIsBelow(store, init, bytes, x);
      ReachedAbove(store, last, x);
      assert MissesNone(store, ids, bytes, x) <==> MissesNone(store, init, bytes, x) && !IsMissed(store, last, bytes, x) by {
        if MissesNone(store, ids, bytes, x) {
          assert forall i :: 0 <= i < |init| ==> !IsMissed(store, ids[i], bytes, x);
        }
      }
    }
  }

  /**
    What a node holds is the sum over everything below it exactly if no directory with bytes is 512 or more levels
    below it, or the number is at its end anyway.
   */
  lemma SumIsRecursive<B>(store: Store<B>, ids: seq<nat>, bytes: nat -> nat, x: nat)
    requires store.TreeShape() && Inside(store, ids)
    ensures Saturated(BytesInReach(store, ids, bytes, x)) == Saturated(BytesBelow(store, ids, bytes, x))
            <==> MissesNone(store, ids, bytes, x) || BytesInReach(store, ids, bytes, x) >= U64_MAX
  {
    InReachIsBelow(store, ids, bytes, x);
  }

  function SizesOf(stat: nat -> Drains.Stat): nat -> nat {
    id => stat(id).size
  }

  lemma {:induction false} BelowRoot<B>(store: Store<B>, ids: seq<nat>, stat: nat -> Drains.Stat)
    requires store.TreeShape() && Inside(store, ids)
    ensures BytesBelow(store, ids, SizesOf(stat), ROOT) == Drains.SizeSum(ids, stat)
  {
    if ids != [] {
      BelowRoot(store, ids[..|ids| - 1], stat);
      RootIsOnEveryWay(store, ids[|ids| - 1]);
    }
  }

  /** The root holds the total that the drain reports for the same directories, unless one with bytes is too deep. */
  lemma RootHoldsTheTotal<B>(store: Store<B>, ids: seq<nat>, stat: nat -> Drains.Stat)
    requires store.TreeShape() && Inside(store, ids)
    ensures Saturated(BytesInReach(store, ids, SizesOf(stat), ROOT)) == Saturated(Drains.SizeSum(ids, stat))
            <==> MissesNone(store, ids, SizesOf(stat), ROOT) || BytesInReach(store, ids, SizesOf(stat), ROOT) >= U64_MAX
  {
    BelowRoot(store, ids, stat);
    SumIsRecursive(store, ids, SizesOf(stat), ROOT);
  }

  // -- Feeding the tree -------------------------------------------------------------------------------

  function StoredParent<B>(store: Store<B>, id: nat): Option<nat>
    requires id < |store.records|
  {
    if id == ROOT then None else Some(store.records[id].parent)
  }

  /** The tree has the listed directories, each below the parent the store gives it, and no other links. */
  ghost predicate Mirrors<B>(nodes: seq<Node>, store: Store<B>, ids: seq<nat>)
    requires store.TreeShape() && Inside(store, ids)
  {
    && |nodes| <= NO_PARENT
    && (forall id :: id in ids ==> IsMirrored(nodes, store, id))
    && (forall x :: 0 <= x < |nodes| && x !in ids ==> nodes[x].parent == NO_PARENT)
  }

  predicate IsMirrored<B>(nodes: seq<Node>, store: Store<B>, id: nat)
    requires id < |store.records|
  {
    id < |nodes| && nodes[id].parent == (if id == ROOT then NO_PARENT else store.records[id].parent)
  }

  lemma LongerWay(nodes: seq<Node>, above: seq<nat>, parent: nat, id: nat)
    requires IsLineage(nodes, above, parent) && id < |nodes| && nodes[id].parent == parent && id !in above
    ensures IsLineage(nodes, above + [id], id)
  {
    var way := above + [id];
    forall i | 0 <= i < |way| ensures way[i] < |nodes| && StepsUp(nodes, way, i) {
      if i < |above| { assert StepsUp(nodes, above, i); }
    }
  }

  /** The store's way to a directory in the tree is the tree's way to it. */
  lemma {:induction false} WayIsLineage<B>(nodes: seq<Node>, store: Store<B>, n: nat, id: nat)
    requires store.TreeShape() && store.JournalOrder() && n <= |store.journal| && Inside(store, store.journal[..n])
    requires Mirrors(nodes, store, store.journal[..n]) && id in store.journal[..n]
    ensures IsLineage(nodes, Way(store, id), id)
    decreases id
  {
    assert IsMirrored(nodes, store, id);
    if id == ROOT {
      assert StepsUp(nodes, [ROOT], 0);
    } else {
      assert store.Linked(id);
      var parent := store.records[id].parent;
      var i :| 0 <= i < n && store.journal[i] == id;
      assert store.ParentsFirst(i);
      WayIsLineage(nodes, store, n, parent);
      if id in Way(store, parent) { WayThrough(store, parent, id); }
      LongerWay(nodes, Way(store, parent), parent, id);
    }
  }

  /** The journal lists each directory once and below a parent that the tree already has. */
  lemma NextIsMirrored<B>(nodes: seq<Node>, after: seq<Node>, store: Store<B>, n: nat, bytes: nat)
    requires store.TreeShape() && store.JournalOrder() && n < |store.journal|
    requires Inside(store, store.journal) && Mirrors(nodes, store, store.journal[..n]) && |after| <= NO_PARENT
    requires IsJoined(nodes, after, store.journal[n], StoredParent(store, store.journal[n]), bytes)
    ensures Mirrors(after, store, store.journal[..n + 1])
  {
    var id, ids := store.journal[n], store.journal[..n];
    assert store.journal[..n + 1] == ids + [id] && id !in ids;
    assert id != ROOT ==> store.Linked(id);
    forall d | d in store.journal[..n + 1] ensures IsMirrored(after, store, d) {
      if d in ids { assert IsMirrored(nodes, store, d); }
    }
  }

  /** An addition that gave each node its share. */
  ghost predicate GaveShares<B>(entry: Added, store: Store<B>, id: nat, bytes: nat -> nat)
    requires store.TreeShape() && id < |store.records|
  {
    && entry.id == id && entry.bytes == bytes(id)
    && forall x: nat :: Given(entry.walk, entry.bytes, x) == Share(store, id, bytes, x)
  }

  ghost predicate AllGaveShares<B>(log: seq<Added>, store: Store<B>, ids: seq<nat>, bytes: nat -> nat)
    requires store.TreeShape() && Inside(store, ids)
  {
    |log| == |ids| && forall i :: 0 <= i < |ids| ==> GaveShares(log[i], store, ids[i], bytes)
  }

  lemma NextGivesShares<B>(nodes: seq<Node>, store: Store<B>, n: nat, bytes: nat -> nat)
    requires store.TreeShape() && store.JournalOrder() && 0 < n <= |store.journal| && Inside(store, store.journal[..n])
    requires Mirrors(nodes, store, store.journal[..n])
    ensures var id := store.journal[n - 1];
            id < |nodes| && GaveShares(Added(id, bytes(id), Walk(nodes, id, MAX_DEPTH)), store, id, bytes)
  {
    var id := store.journal[n - 1];
    assert store.journal[..n][n - 1] == id;
    assert IsMirrored(nodes, store, id);
    WayIsLineage(nodes, store, n, id);
    forall x: nat ensures Given(Walk(nodes, id, MAX_DEPTH), bytes(id), x) == Share(store, id, bytes, x) {
      GivenOnLineage(nodes, Way(store, id), id, bytes(id), MAX_DEPTH, x);
    }
  }

  lemma {:induction false} TotalIsInReach<B>(log: seq<Added>, store: Store<B>, ids: seq<nat>, bytes: nat -> nat, x: nat)
    requires store.TreeShape() && Inside(store, ids) && AllGaveShares(log, store, ids, bytes)
    ensures Total(log, x) == BytesInReach(store, ids, bytes, x)
  {
    if ids != [] {
      TotalIsInReach(log[..|log| - 1], store, ids[..|ids| - 1], bytes, x);
      assert GaveShares(log[|log| - 1], store, ids[|ids| - 1], bytes);
    }
  }

  /** Every node holds the bytes of the listed directories at or below it, as far as they are in reach. */
  ghost predicate HoldsBytes<B>(nodes: seq<Node>, store: Store<B>, ids: seq<nat>, bytes: nat -> nat)
    requires store.TreeShape() && Inside(store, ids)
  {
    forall x :: 0 <= x < |nodes| ==> nodes[x].subtree == Saturated(BytesInReach(store, ids, bytes, x))
  }

  lemma FilledHoldsBytes<B>(nodes: seq<Node>, log: seq<Added>, store: Store<B>, ids: seq<nat>, bytes: nat -> nat)
    requires store.TreeShape() && Inside(store, ids) && AllGaveShares(log, store, ids, bytes) && Propagated(nodes, log)
    ensures HoldsBytes(nodes, store, ids, bytes)
  {
    forall x | 0 <= x < |nodes| ensures nodes[x].subtree == Saturated(BytesInReach(store, ids, bytes, x)) {
      TotalIsInReach(log, store, ids, bytes, x);
    }
  }

  ghost predicate Fed<B>(nodes: seq<Node>, log: seq<Added>, store: Store<B>, n: nat, bytes: nat -> nat)
    requires store.TreeShape() && store.JournalOrder() && n <= |store.journal|
  {
    JournalIsInside(store);
    Mirrors(nodes, store, store.journal[..n]) && AllGaveShares(log, store, store.journal[..n], bytes)
  }

  lemma SharesGrow<B>(log: seq<Added>, store: Store<B>, ids: seq<nat>, entry: Added, id: nat, bytes: nat -> nat)
    requires store.TreeShape() && Inside(store, ids) && id < |store.records|
    requires AllGaveShares(log, store, ids, bytes) && GaveShares(entry, store, id, bytes)
    ensures AllGaveShares(log + [entry], store, ids + [id], bytes)
  {
    var longer, all := log + [entry], ids + [id];
    forall i | 0 <= i < |all| ensures GaveShares(longer[i], store, all[i], bytes) {
      if i < |ids| { assert GaveShares(log[i], store, ids[i], bytes); }
    }
  }

  lemma NextIsFed<B>(nodes: seq<Node>, after: seq<Node>, log: seq<Added>, store: Store<B>, n: nat, bytes: nat -> nat)
    requires store.TreeShape() && store.JournalOrder() && n < |store.journal| && Fed(nodes, log, store, n, bytes)
    requires store.journal[n] < |store.records| && |after| <= NO_PARENT
    requires var id := store.journal[n]; IsJoined(nodes, after, id, StoredParent(store, id), bytes(id))
    ensures var id := store.journal[n];
            id < |after| && Fed(after, log + [Added(id, bytes(id), Walk(after, id, MAX_DEPTH))], store, n + 1, bytes)
  {
    var id := store.journal[n];
    var entry := Added(id, bytes(id), Walk(after, id, MAX_DEPTH));
    JournalIsInside(store);
    NextIsMirrored(nodes, after, store, n, bytes(id));
    NextGivesShares(after, store, n + 1, bytes);
    GrownLogGaveShares(log, store, n, entry, bytes);
  }

  lemma GrownLogGaveShares<B>(log: seq<Added>, store: Store<B>, n: nat, entry: Added, bytes: nat -> nat)
    requires store.TreeShape() && n < |store.journal| && Inside(store, store.journal)
    requires AllGaveShares(log, store, store.journal[..n], bytes) && GaveShares(entry, store, store.journal[n], bytes)
    ensures AllGaveShares(log + [entry], store, store.journal[..n + 1], bytes)
  {
    SharesGrow(log, store, store.journal[..n], entry, store.journal[n], bytes);
    assert store.journal[..n + 1] == store.journal[..n] + [store.journal[n]];
  }

  method FeedNext<B>(sizes: DirectorySizes, store: Store<B>, n: nat, bytes: nat -> nat)
    requires sizes.Valid() && store.TreeShape() && store.JournalOrder() && n < |store.journal|
    requires Fed(sizes.tree.nodes, sizes.log, store, n, bytes)
    modifies sizes, sizes.tree
    ensures sizes.Valid() && Fed(sizes.tree.nodes, sizes.log, store, n + 1, bytes)
  {
    var id := store.journal[n];
    JournalIsInside(store);
    ghost var before, log := sizes.tree.nodes, sizes.log;
    assert id != ROOT ==> store.Linked(id);
    sizes.AddDirectory(id, StoredParent(store, id), bytes(id));
    NextIsFed(before, sizes.tree.nodes, log, store, n, bytes);
  }

  /** Draining any part of the journal of any store into the tree. */
  method FillTree<B>(store: Store<B>, count: nat, bytes: nat -> nat) returns (sizes: DirectorySizes)
    requires store.TreeShape() && store.JournalOrder() && count <= |store.journal|
    ensures sizes.Valid() && Inside(store, store.journal[..count])
    ensures Mirrors(sizes.tree.nodes, store, store.journal[..count])
    ensures HoldsBytes(sizes.tree.nodes, store, store.journal[..count], bytes)
  {
    sizes := new DirectorySizes();
    for n := 0 to count
      invariant fresh(sizes) && fresh(sizes.tree) && sizes.Valid()
      invariant Fed(sizes.tree.nodes, sizes.log, store, n, bytes)
    {
      FeedNext(sizes, store, n, bytes);
    }
    JournalIsInside(store);
    FilledHoldsBytes(sizes.tree.nodes, sizes.log, store, store.journal[..count], bytes);
  }

  // -- A chain that is too deep -----------------------------------------------------------------------

  /** `n` published directories, each in the one before. */
  function ChainRecord(n: nat, k: nat): Record<()>
    requires k < n
  {
    var stored := if k == n - 1 then Stored((), 0, NO_ID, []) else Stored((), 1, k + 1, [0]);
    if k == ROOT then Record(NO_ID, NO_ID, 0, Published, Some(stored)) else Record(k - 1, 0, 0, Published, Some(stored))
  }

  function Chain(n: nat): (store: Store<()>)
    ensures |store.records| == |store.journal| == n
  {
    Store(seq(n, k requires 0 <= k < n => ChainRecord(n, k)), seq(n, k requires 0 <= k < n => k), n, 0, if n == 0 then 0 else n - 1)
  }

  lemma ChainIsStore(n: nat)
    requires 0 < n <= UINT32_MAX
    ensures Chain(n).TreeShape() && Chain(n).JournalOrder()
  {
    var store := Chain(n);
    forall k: nat | k < n ensures store.ValidRecord(k) && (k > 0 ==> store.Linked(k)) {
      assert store.records[k] == ChainRecord(n, k);
      if k > 0 { assert store.records[k - 1] == ChainRecord(n, k - 1); }
      if k + 1 < n { assert store.records[k + 1] == ChainRecord(n, k + 1); }
    }
    forall i | 0 <= i < n ensures store.ParentsFirst(i) {
      assert store.records[i] == ChainRecord(n, i);
      if i > 0 { assert store.journal[..i][i - 1] == i - 1; }
    }
    forall id: nat ensures id in store.journal <==> store.Terminal(id) {
      if id < n { assert store.journal[id] == id && store.records[id] == ChainRecord(n, id); }
    }
  }

  lemma {:induction false} ChainWay(n: nat, k: nat)
    requires k < n <= UINT32_MAX && Chain(n).TreeShape()
    ensures |Way(Chain(n), k)| == k + 1
  {
    if k > 0 {
      assert Chain(n).records[k] == ChainRecord(n, k);
      ChainWay(n, k - 1);
    }
  }

  /** 513 directories in a chain: the one byte of the last does not reach the root. */
  lemma DeepBytesAreMissed()
    ensures var store, bytes := Chain(MAX_DEPTH + 1), (id: nat) => if id == MAX_DEPTH then 1 else 0;
            && store.TreeShape() && store.JournalOrder() && Inside(store, store.journal)
            && BytesInReach(store, store.journal, bytes, ROOT) == 0 && BytesBelow(store, store.journal, bytes, ROOT) == 1
  {
    var store, bytes := Chain(MAX_DEPTH + 1), (id: nat) => if id == MAX_DEPTH then 1 else 0;
    ChainIsStore(MAX_DEPTH + 1);
    JournalIsInside(store);
    var journal := store.journal;
    NoBytesBelow(store, journal[..MAX_DEPTH], bytes, ROOT);
    assert journal[..|journal| - 1] == journal[..MAX_DEPTH] && journal[|journal| - 1] == MAX_DEPTH;
    ChainWay(MAX_DEPTH + 1, MAX_DEPTH);
    ChainWay(MAX_DEPTH + 1, ROOT);
    RootIsOnEveryWay(store, MAX_DEPTH);
    ReachedAbove(store, MAX_DEPTH, ROOT);
  }

  lemma {:induction false} NoBytesBelow<B>(store: Store<B>, ids: seq<nat>, bytes: nat -> nat, x: nat)
    requires store.TreeShape() && Inside(store, ids) && forall i :: 0 <= i < |ids| ==> bytes(ids[i]) == 0
    ensures BytesBelow(store, ids, bytes, x) == 0 == BytesInReach(store, ids, bytes, x)
  {
    if ids != [] { NoBytesBelow(store, ids[..|ids| - 1], bytes, x); }
  }
}
