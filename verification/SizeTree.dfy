/** Directory sizes that are propagated to all ancestors as directories arrive, and sibling lists kept in size order. */
module SizeTrees {
  import opened Options
  import opened Sequences
  import opened StoreModel
  import opened Words

  const NO_PARENT: nat := 0xFFFF_FFFF
  const MAX_DEPTH: nat := 512

  datatype Node = Node(parent: nat, subtree: nat, own: nat, children: seq<nat>, dirty: bool)

  const EMPTY: Node := Node(NO_PARENT, 0, 0, [], false)

  // -- Sorting siblings -------------------------------------------------------------------------------

  function SizeOf(nodes: seq<Node>, id: nat): nat {
    if id < |nodes| then nodes[id].subtree else 0
  }

  ghost predicate Descending(nodes: seq<Node>, ids: seq<nat>) {
    forall i, j {:trigger ids[i], ids[j]} :: 0 <= i < j < |ids| ==> SizeOf(nodes, ids[i]) >= SizeOf(nodes, ids[j])
  }

  /** Puts `id` in front of the first one that is smaller or equal: behind nothing that it ties with. */
  function Insert(nodes: seq<Node>, id: nat, ids: seq<nat>): seq<nat> {
    if ids == [] || SizeOf(nodes, id) >= SizeOf(nodes, ids[0]) then [id] + ids
    else [ids[0]] + Insert(nodes, id, ids[1..])
  }

  /** The stable sort by descending size. */
  function Sort(nodes: seq<Node>, ids: seq<nat>): seq<nat> {
    if ids == [] then [] else Insert(nodes, ids[0], Sort(nodes, ids[1..]))
  }

  lemma ConsDescends(nodes: seq<Node>, id: nat, ids: seq<nat>)
    requires Descending(nodes, ids) && forall other :: other in ids ==> SizeOf(nodes, id) >= SizeOf(nodes, other)
    ensures Descending(nodes, [id] + ids)
  {
    var all := [id] + ids;
    forall i, j | 0 <= i < j < |all| ensures SizeOf(nodes, all[i]) >= SizeOf(nodes, all[j]) {
      assert all[j] == ids[j - 1] && all[j] in ids;
    }
  }

  lemma TailDescends(nodes: seq<Node>, ids: seq<nat>)
    requires Descending(nodes, ids) && ids != []
    ensures Descending(nodes, ids[1..])
    ensures forall other :: other in ids ==> SizeOf(nodes, ids[0]) >= SizeOf(nodes, other)
    ensures multiset(ids) == multiset{ids[0]} + multiset(ids[1..])
  {
    assert ids == [ids[0]] + ids[1..];
  }

  lemma {:induction false} InsertMembers(nodes: seq<Node>, id: nat, ids: seq<nat>)
    ensures multiset(Insert(nodes, id, ids)) == multiset(ids) + multiset{id}
    ensures forall other :: other in Insert(nodes, id, ids) <==> other == id || other in ids
  {
    if ids != [] && SizeOf(nodes, id) < SizeOf(nodes, ids[0]) {
      InsertMembers(nodes, id, ids[1..]);
      assert ids == [ids[0]] + ids[1..];
    }
  }

  lemma {:induction false} InsertSorts(nodes: seq<Node>, id: nat, ids: seq<nat>)
    requires Descending(nodes, ids)
    ensures Descending(nodes, Insert(nodes, id, ids))
  {
    if ids == [] {
    } else if SizeOf(nodes, id) >= SizeOf(nodes, ids[0]) {
      TailDescends(nodes, ids);
      ConsDescends(nodes, id, ids);
    } else {
      TailDescends(nodes, ids);
      InsertSorts(nodes, id, ids[1..]);
      InsertMembers(nodes, id, ids[1..]);
      ConsDescends(nodes, ids[0], Insert(nodes, id, ids[1..]));
    }
  }

  lemma {:induction false} SortSorts(nodes: seq<Node>, ids: seq<nat>)
    ensures Descending(nodes, Sort(nodes, ids)) && multiset(Sort(nodes, ids)) == multiset(ids)
  {
    if ids != [] {
      SortSorts(nodes, ids[1..]);
      InsertSorts(nodes, ids[0], Sort(nodes, ids[1..]));
      InsertMembers(nodes, ids[0], Sort(nodes, ids[1..]));
      assert ids == [ids[0]] + ids[1..];
    }
  }

  /** Those of one size, in their order. */
  function OfSize(nodes: seq<Node>, ids: seq<nat>, size: nat): seq<nat> {
    if ids == [] then []
    else (if SizeOf(nodes, ids[0]) == size then [ids[0]] else []) + OfSize(nodes, ids[1..], size)
  }

  lemma OfSizeCons(nodes: seq<Node>, id: nat, ids: seq<nat>, size: nat)
    ensures OfSize(nodes, [id] + ids, size) == if SizeOf(nodes, id) == size then [id] + OfSize(nodes, ids, size) else OfSize(nodes, ids, size)
  {
    assert ([id] + ids)[1..] == ids;
  }

  lemma {:induction false} InsertIsStable(nodes: seq<Node>, id: nat, ids: seq<nat>, size: nat)
    ensures OfSize(nodes, Insert(nodes, id, ids), size) == OfSize(nodes, [id] + ids, size)
  {
    if ids != [] && SizeOf(nodes, id) < SizeOf(nodes, ids[0]) {
      InsertIsStable(nodes, id, ids[1..], size);
      OfSizeCons(nodes, ids[0], Insert(nodes, id, ids[1..]), size);
      OfSizeCons(nodes, id, ids[1..], size);
      OfSizeCons(nodes, id, ids, size);
    }
  }

  /** Children of equal size stay in the order they had. */
  lemma {:induction false} SortIsStable(nodes: seq<Node>, ids: seq<nat>, size: nat)
    ensures OfSize(nodes, Sort(nodes, ids), size) == OfSize(nodes, ids, size)
  {
    if ids != [] {
      SortIsStable(nodes, ids[1..], size);
      InsertIsStable(nodes, ids[0], Sort(nodes, ids[1..]), size);
      OfSizeCons(nodes, ids[0], Sort(nodes, ids[1..]), size);
    }
  }

  ghost predicate SameSizes(nodes: seq<Node>, after: seq<Node>) {
    forall id: nat :: SizeOf(after, id) == SizeOf(nodes, id)
  }

  lemma {:induction false} InsertFrame(nodes: seq<Node>, after: seq<Node>, id: nat, ids: seq<nat>)
    requires SameSizes(nodes, after)
    ensures Insert(after, id, ids) == Insert(nodes, id, ids)
  {
    if ids != [] { InsertFrame(nodes, after, id, ids[1..]); }
  }

  /** The order depends on the sizes alone. */
  lemma {:induction false} SortFrame(nodes: seq<Node>, after: seq<Node>, ids: seq<nat>)
    requires SameSizes(nodes, after)
    ensures Sort(after, ids) == Sort(nodes, ids)
  {
    if ids != [] {
      SortFrame(nodes, after, ids[1..]);
      InsertFrame(nodes, after, ids[0], Sort(nodes, ids[1..]));
    }
  }

  // -- The tree ---------------------------------------------------------------------------------------

  /** A parent is a known node, and its child list names exactly the nodes that name it. */
  ghost predicate Linked(nodes: seq<Node>, id: nat)
    requires id < |nodes|
  {
    && (nodes[id].parent != NO_PARENT ==> nodes[id].parent < |nodes| && id in nodes[nodes[id].parent].children)
    && (forall i :: 0 <= i < |nodes[id].children| ==> IsChild(nodes, nodes[id].children[i], id))
    && (forall i, j :: 0 <= i < j < |nodes[id].children| ==> nodes[id].children[i] != nodes[id].children[j])
  }

  predicate IsChild(nodes: seq<Node>, id: nat, parent: nat) {
    id < |nodes| && nodes[id].parent == parent && parent != NO_PARENT
  }

  /** Siblings may be out of order only where the flag says so. */
  ghost predicate Ordered(nodes: seq<Node>, id: nat)
    requires id < |nodes|
  {
    !nodes[id].dirty ==> Descending(nodes, nodes[id].children)
  }

  ghost predicate Flagged(nodes: seq<Node>, dirty: seq<nat>, id: nat)
    requires id < |nodes|
  {
    nodes[id].dirty <==> id in dirty
  }

  ghost predicate Consistent(nodes: seq<Node>, dirty: seq<nat>) {
    && |nodes| <= NO_PARENT
    && (forall id :: 0 <= id < |nodes| ==> Linked(nodes, id))
    && (forall id :: 0 <= id < |nodes| ==> Ordered(nodes, id))
    && (forall id :: 0 <= id < |nodes| ==> Flagged(nodes, dirty, id))
    && (forall i :: 0 <= i < |dirty| ==> dirty[i] < |nodes|)
    && (forall i, j :: 0 <= i < j < |dirty| ==> dirty[i] != dirty[j])
  }

  lemma LinkedFrame(before: seq<Node>, after: seq<Node>, id: nat)
    requires id < |before| <= |after| && Linked(before, id)
    requires forall k :: 0 <= k < |before| ==> after[k].parent == before[k].parent && after[k].children == before[k].children
    ensures Linked(after, id)
  {
    forall i | 0 <= i < |after[id].children| ensures IsChild(after, after[id].children[i], id) {
      assert IsChild(before, before[id].children[i], id);
    }
  }

  class SizeTree {
    var nodes: seq<Node>
    var dirtyChildren: seq<nat>

    ghost predicate Valid()
      reads this
    {
      Consistent(nodes, dirtyChildren)
    }

    constructor ()
      ensures Valid() && nodes == [] && dirtyChildren == []
    {
      nodes, dirtyChildren := [], [];
    }

    method Ensure(id: nat)
      requires Valid() && id < NO_PARENT
      modifies this
      ensures Valid() && id < |nodes| && |nodes| == (if id < |old(nodes)| then |old(nodes)| else id + 1)
      ensures nodes == old(nodes) + seq(|nodes| - |old(nodes)|, _ => EMPTY)
      ensures dirtyChildren == old(dirtyChildren)
    {
      if |nodes| < id + 1 {
        nodes := nodes + seq(id + 1 - |nodes|, _ => EMPTY);
        GrownIsConsistent(old(nodes), nodes, dirtyChildren);
      }
    }

    static lemma GrownIsConsistent(before: seq<Node>, after: seq<Node>, dirty: seq<nat>)
      requires Consistent(before, dirty) && |before| <= |after| <= NO_PARENT
      requires forall k :: 0 <= k < |before| ==> after[k] == before[k]
      requires forall k :: |before| <= k < |after| ==> after[k] == EMPTY
      ensures Consistent(after, dirty)
    {
      forall id | 0 <= id < |after| ensures Linked(after, id) && Ordered(after, id) && Flagged(after, dirty, id) {
        if id < |before| {
          assert Linked(before, id) && Ordered(before, id) && Flagged(before, dirty, id);
          LinkedFrame(before, after, id);
          forall i | 0 <= i < |before[id].children|
            ensures SizeOf(after, before[id].children[i]) == SizeOf(before, before[id].children[i])
          {
            assert IsChild(before, before[id].children[i], id);
          }
        }
      }
    }

    /** Flags a node once and remembers it for the end of the batch. */
    method MarkChildrenDirty(id: nat)
      requires id < |nodes| && Flagged(nodes, dirtyChildren, id)
      modifies this
      ensures nodes == old(nodes)[id := old(nodes)[id].(dirty := true)]
      ensures dirtyChildren == if id in old(dirtyChildren) then old(dirtyChildren) else old(dirtyChildren) + [id]
    {
      if !nodes[id].dirty {
        nodes := nodes[id := nodes[id].(dirty := true)];
        dirtyChildren := dirtyChildren + [id];
      }
    }

    /** Records the parent link once; a second parent for the same node is ignored. */
    method Link(id: nat, parent: nat)
      requires Valid() && id < NO_PARENT && parent < NO_PARENT
      modifies this
      ensures Valid() && id < |nodes| && parent < |nodes| && |old(nodes)| <= |nodes|
      ensures var before := Extended(old(nodes), |nodes|);
              nodes == if before[id].parent == NO_PARENT && id != parent then Attached(before, id, parent) else before
    {
      Ensure(id);
      Ensure(parent);
      ghost var before, dirty := nodes, dirtyChildren;
      assert nodes == Extended(old(nodes), |nodes|);
      if nodes[id].parent == NO_PARENT && id != parent {
        nodes := nodes[id := nodes[id].(parent := parent)];
        nodes := nodes[parent := nodes[parent].(children := nodes[parent].children + [id])];
        assert Flagged(before, dirty, parent);
        MarkChildrenDirty(parent);
        assert nodes == Attached(before, id, parent);
        AttachedIsConsistent(before, dirty, dirtyChildren, id, parent);
      }
    }

    static function Extended(before: seq<Node>, n: nat): (after: seq<Node>)
      requires |before| <= n
      ensures |after| == n
    {
      before + seq(n - |before|, _ => EMPTY)
    }

    static function Attached(before: seq<Node>, id: nat, parent: nat): (after: seq<Node>)
      requires id < |before| && parent < |before| && id != parent
      ensures |after| == |before|
    {
      before[id := before[id].(parent := parent)]
            [parent := before[parent].(children := before[parent].children + [id], dirty := true)]
    }

    static lemma AttachedIsConsistent(before: seq<Node>, dirty: seq<nat>, newDirty: seq<nat>, id: nat, parent: nat)
      requires Consistent(before, dirty) && id < |before| && parent < |before| && id != parent
      requires before[id].parent == NO_PARENT
      requires newDirty == if parent in dirty then dirty else dirty + [parent]
      ensures Consistent(Attached(before, id, parent), newDirty)
    {
      var after := Attached(before, id, parent);
      forall k | 0 <= k < |after| ensures Linked(after, k) && Ordered(after, k) && Flagged(after, newDirty, k) {
        assert Linked(before, k) && Ordered(before, k) && Flagged(before, dirty, k);
        forall i | 0 <= i < |after[k].children|
          ensures IsChild(after, after[k].children[i], k)
          ensures i < |before[k].children| ==> after[k].children[i] != id
        {
          if i < |before[k].children| { assert IsChild(before, before[k].children[i], k); }
        }
        if after[k].parent != NO_PARENT && k != id { assert k in before[before[k].parent].children; }
        assert forall other :: SizeOf(after, other) == SizeOf(before, other);
      }
    }

    // -- Adding bytes -------------------------------------------------------------------------

    static function Bumped(before: seq<Node>, id: nat, bytes: nat): (after: seq<Node>)
      requires id < |before|
      ensures |after| == |before|
    {
      var grown := before[id := before[id].(subtree := Saturated(before[id].subtree + bytes))];
      var parent := before[id].parent;
      if parent == NO_PARENT || parent >= |before| then grown else grown[parent := grown[parent].(dirty := true)]
    }

    /** One level: a node grows, so its parent's child list may be out of order. */
    method Bump(id: nat, bytes: nat) returns (parent: nat)
      requires Valid() && id < |nodes|
      modifies this
      ensures Valid() && nodes == Bumped(old(nodes), id, bytes)
      ensures parent == old(nodes)[id].parent && (parent == NO_PARENT || parent < |nodes|)
    {
      ghost var before, dirty := nodes, dirtyChildren;
      assert Linked(before, id);
      nodes := nodes[id := nodes[id].(subtree := Saturated(nodes[id].subtree + bytes))];
      parent := nodes[id].parent;
      if parent != NO_PARENT {
        assert Flagged(before, dirty, parent);
        MarkChildrenDirty(parent);
      }
      assert nodes == Bumped(before, id, bytes);
      BumpedIsConsistent(before, dirty, dirtyChildren, id, bytes);
    }

    static lemma BumpedIsConsistent(before: seq<Node>, dirty: seq<nat>, newDirty: seq<nat>, id: nat, bytes: nat)
      requires Consistent(before, dirty) && id < |before|
      requires var parent := before[id].parent;
               newDirty == if parent == NO_PARENT || parent in dirty then dirty else dirty + [parent]
      ensures Consistent(Bumped(before, id, bytes), newDirty)
    {
      var after := Bumped(before, id, bytes);
      assert Linked(before, id);
      forall k | 0 <= k < |after| ensures Linked(after, k) && Ordered(after, k) && Flagged(after, newDirty, k) {
        assert Linked(before, k) && Ordered(before, k) && Flagged(before, dirty, k);
        LinkedFrame(before, after, k);
        forall i | 0 <= i < |before[k].children|
          ensures k != before[id].parent ==> SizeOf(after, before[k].children[i]) == SizeOf(before, before[k].children[i])
        {
          assert IsChild(before, before[k].children[i], k);
        }
      }
    }

    /** Up to `n` levels from `id` upward. */
    static function BumpedUp(nodes: seq<Node>, id: nat, bytes: nat, n: nat): (after: seq<Node>)
      requires id < |nodes|
      ensures |after| == |nodes|
      decreases n
    {
      if n == 0 then nodes
      else if nodes[id].parent >= |nodes| then Bumped(nodes, id, bytes)
      else BumpedUp(Bumped(nodes, id, bytes), nodes[id].parent, bytes, n - 1)
    }

    /** Adds a directory's bytes to itself and to every ancestor, up to a bound that also stops a cycle. */
    method AddBytes(id: nat, bytes: nat)
      requires Valid() && id < NO_PARENT
      modifies this
      ensures Valid() && id < |nodes| && |nodes| == (if id < |old(nodes)| then |old(nodes)| else id + 1)
      ensures nodes == BumpedUp(Extended(old(nodes), |nodes|), id, bytes, MAX_DEPTH)
    {
      Ensure(id);
      assert nodes == Extended(old(nodes), |nodes|);
      AddUpward(id, bytes, MAX_DEPTH);
    }

    method AddUpward(id: nat, bytes: nat, levels: nat)
      requires Valid() && id < |nodes|
      modifies this
      ensures Valid() && nodes == BumpedUp(old(nodes), id, bytes, levels)
    {
      var current: nat := id;
      for k := 0 to levels
        invariant Valid() && |nodes| == |old(nodes)| && current < |nodes|
        invariant BumpedUp(old(nodes), id, bytes, levels) == BumpedUp(nodes, current, bytes, levels - k)
      {
        var parent := Bump(current, bytes);
        if parent == NO_PARENT { return; }
        current := parent;
      }
    }

    /** Records a directory's immediate bytes. */
    method SetOwn(id: nat, bytes: nat)
      requires Valid() && id < NO_PARENT
      modifies this
      ensures Valid() && id < |nodes| && |old(nodes)| <= |nodes|
      ensures var before := Extended(old(nodes), |nodes|); nodes == before[id := before[id].(own := bytes)]
      ensures |nodes| == if id < |old(nodes)| then |old(nodes)| else id + 1
    {
      Ensure(id);
      ghost var before := nodes;
      assert before == Extended(old(nodes), |nodes|);
      nodes := nodes[id := nodes[id].(own := bytes)];
      forall k | 0 <= k < |nodes| ensures Linked(nodes, k) && Ordered(nodes, k) && Flagged(nodes, dirtyChildren, k) {
        assert Linked(before, k) && Ordered(before, k) && Flagged(before, dirtyChildren, k);
        LinkedFrame(before, nodes, k);
        assert forall other :: SizeOf(nodes, other) == SizeOf(before, other);
      }
    }

    // -- The end of a batch -------------------------------------------------------------------

    ghost predicate Settled()
      reads this
    {
      dirtyChildren == [] && forall id :: 0 <= id < |nodes| ==> !nodes[id].dirty && Descending(nodes, nodes[id].children)
    }

    static function SortedAt(nodes: seq<Node>, id: nat): (after: seq<Node>)
      requires id < |nodes|
      ensures |after| == |nodes|
    {
      nodes[id := nodes[id].(dirty := false, children := Sort(nodes, nodes[id].children))]
    }

    static lemma SortedAtIsConsistent(before: seq<Node>, dirty: seq<nat>, id: nat)
      requires Consistent(before, [id] + dirty) && id < |before|
      ensures Consistent(SortedAt(before, id), dirty)
    {
      var after, all := SortedAt(before, id), [id] + dirty;
      assert forall i :: 0 <= i < |dirty| ==> all[i + 1] == dirty[i] && all[0] != all[i + 1];
      SortSorts(before, before[id].children);
      SortKeepsLinks(before, id);
      forall k | 0 <= k < |after| ensures Linked(after, k) && Ordered(after, k) && Flagged(after, dirty, k) {
        assert Linked(before, k) && Ordered(before, k) && Flagged(before, [id] + dirty, k);
        assert forall other :: SizeOf(after, other) == SizeOf(before, other);
      }
      forall i | 0 <= i < |dirty| ensures dirty[i] < |after| { assert ([id] + dirty)[i + 1] == dirty[i]; }
    }

    static lemma SortKeepsLinks(before: seq<Node>, id: nat)
      requires id < |before| <= NO_PARENT && forall k :: 0 <= k < |before| ==> Linked(before, k)
      ensures forall k :: 0 <= k < |before| ==> Linked(SortedAt(before, id), k)
    {
      var after := SortedAt(before, id);
      SortSorts(before, before[id].children);
      forall k | 0 <= k < |after| ensures Linked(after, k) {
        assert Linked(before, k);
        if k == id { PermutedIsLinked(before, id); }
        if before[k].parent == id { assert k in multiset(before[id].children) && k in multiset(after[id].children); }
      }
    }

    static lemma PermutedIsLinked(before: seq<Node>, id: nat)
      requires id < |before| && Linked(before, id)
      ensures var sorted := Sort(before, before[id].children);
              && (forall i :: 0 <= i < |sorted| ==> IsChild(before, sorted[i], id))
              && (forall i, j :: 0 <= i < j < |sorted| ==> sorted[i] != sorted[j])
    {
      var children := before[id].children;
      var sorted := Sort(before, children);
      SortSorts(before, children);
      forall i | 0 <= i < |sorted| ensures IsChild(before, sorted[i], id) {
        assert sorted[i] in multiset(sorted) && sorted[i] in multiset(children);
      }
      OnceEach(children);
      ApartIfOnce(sorted);
    }

    static lemma {:induction false} OnceEach(s: seq<nat>)
      requires forall i, j :: 0 <= i < j < |s| ==> s[i] != s[j]
      ensures forall x :: multiset(s)[x] <= 1
    {
      if s != [] {
        OnceEach(s[1..]);
        assert s == [s[0]] + s[1..];
        assert s[0] !in s[1..];
      }
    }

    static lemma CountsTwice(s: seq<nat>, i: nat, j: nat)
      requires i < j < |s|
      ensures multiset(s)[s[i]] >= if s[i] == s[j] then 2 else 1
    {
      assert s == s[..i] + [s[i]] + s[i + 1..j] + [s[j]] + s[j + 1..];
    }

    static lemma ApartIfOnce(s: seq<nat>)
      requires forall x :: multiset(s)[x] <= 1
      ensures forall i, j :: 0 <= i < j < |s| ==> s[i] != s[j]
    {
      forall i, j | 0 <= i < j < |s| ensures s[i] != s[j] { CountsTwice(s, i, j); }
    }

    /** A node after the batch: its child list is sorted if it was flagged, and nothing else has changed. */
    static function SettledNode(nodes: seq<Node>, id: nat): Node
      requires id < |nodes|
    {
      if nodes[id].dirty then nodes[id].(dirty := false, children := Sort(nodes, nodes[id].children)) else nodes[id]
    }

    /** Sorts the flagged child lists again and clears the flags; sizes and links stay. */
    method FinishBatch()
      requires Valid()
      modifies this
      ensures Valid() && Settled() && |nodes| == |old(nodes)|
      ensures forall id :: 0 <= id < |nodes| ==> nodes[id] == SettledNode(old(nodes), id)
    {
      ghost var before := nodes;
      var parents := dirtyChildren;
      dirtyChildren := [];
      assert parents[0..] == parents;
      forall id | 0 <= id < |nodes| && id !in parents ensures nodes[id] == SettledNode(before, id) {
        assert Flagged(before, parents, id);
      }
      for k := 0 to |parents|
        invariant dirtyChildren == [] && Consistent(nodes, parents[k..]) && |nodes| == |before|
        invariant forall id :: 0 <= id < |nodes| ==>
                    nodes[id] == if id in parents[k..] then before[id] else SettledNode(before, id)
      {
        var parent := parents[k];
        assert parents[k..] == [parent] + parents[k + 1..] && parents[k..][0] == parent;
        assert Flagged(nodes, parents[k..], parent);
        SortedAtIsConsistent(nodes, parents[k + 1..], parent);
        assert SameSizes(before, nodes);
        SortFrame(before, nodes, nodes[parent].children);
        nodes := SortedAt(nodes, parent);
        assert parent !in parents[k + 1..];
      }
      forall id | 0 <= id < |nodes| ensures !nodes[id].dirty && Descending(nodes, nodes[id].children) {
        assert Flagged(nodes, [], id) && Ordered(nodes, id);
      }
    }

    // -- Sizes --------------------------------------------------------------------------------

    /** The positive sizes of a settled child list are its front. */
    method ChildrenBySize(id: nat) returns (nonempty: seq<nat>)
      requires Valid()
      ensures nonempty <= if id < |nodes| then nodes[id].children else []
      ensures id < |nodes| && !nodes[id].dirty ==>
                Descending(nodes, nonempty) && forall child :: child in nonempty <==>
                  IsChild(nodes, child, id) && SizeOf(nodes, child) > 0
    {
      if id >= |nodes| { return []; }
      var children := nodes[id].children;
      var low, high := 0, |children|;
      while low < high
        invariant 0 <= low <= high <= |children|
        invariant !nodes[id].dirty ==> forall i :: 0 <= i < low ==> SizeOf(nodes, children[i]) > 0
        invariant !nodes[id].dirty ==> forall i :: high <= i < |children| ==> SizeOf(nodes, children[i]) == 0
      {
        var middle := (low + high) / 2;
        assert Ordered(nodes, id);
        if SizeOf(nodes, children[middle]) > 0 { low := middle + 1; } else { high := middle; }
      }
      nonempty := children[..low];
      PositiveFront(nodes, id, low);
    }

    static lemma PositiveFront(nodes: seq<Node>, id: nat, n: nat)
      requires id < |nodes| && (forall k :: 0 <= k < |nodes| ==> Linked(nodes, k)) && Ordered(nodes, id)
      requires n <= |nodes[id].children| && |nodes| <= NO_PARENT
      requires !nodes[id].dirty ==> forall i :: 0 <= i < n ==> SizeOf(nodes, nodes[id].children[i]) > 0
      requires !nodes[id].dirty ==> forall i :: n <= i < |nodes[id].children| ==> SizeOf(nodes, nodes[id].children[i]) == 0
      ensures !nodes[id].dirty ==>
                Descending(nodes, nodes[id].children[..n]) && forall child :: child in nodes[id].children[..n] <==>
                  IsChild(nodes, child, id) && SizeOf(nodes, child) > 0
    {
      var children := nodes[id].children;
      if !nodes[id].dirty {
        forall child ensures child in children[..n] <==> IsChild(nodes, child, id) && SizeOf(nodes, child) > 0 {
          assert Linked(nodes, id);
          if child in children[..n] {
            var i :| 0 <= i < n && children[i] == child;
            assert IsChild(nodes, children[i], id);
          }
          if IsChild(nodes, child, id) { assert Linked(nodes, child) && child in children; }
        }
      }
    }
  }

  // -- Propagation ------------------------------------------------------------------------------------

  /** The way from the root down to a node, by parent links. */
  ghost predicate IsLineage(nodes: seq<Node>, way: seq<nat>, id: nat) {
    && way != [] && way[|way| - 1] == id
    && (forall i :: 0 <= i < |way| ==> way[i] < |nodes|)
    && (forall i :: 0 <= i < |way| ==> StepsUp(nodes, way, i))
    && (forall i, j :: 0 <= i < j < |way| ==> way[i] != way[j])
  }

  predicate StepsUp(nodes: seq<Node>, way: seq<nat>, i: nat)
    requires i < |way| && way[i] < |nodes|
  {
    nodes[way[i]].parent == if i == 0 then NO_PARENT else way[i - 1]
  }

  lemma WayToParent(nodes: seq<Node>, way: seq<nat>, id: nat)
    requires IsLineage(nodes, way, id)
    ensures way == way[..|way| - 1] + [id] && id !in way[..|way| - 1]
    ensures |way| == 1 ==> nodes[id].parent == NO_PARENT
    ensures |way| > 1 ==> nodes[id].parent == way[|way| - 2] && IsLineage(nodes, way[..|way| - 1], nodes[id].parent)
  {
    assert StepsUp(nodes, way, |way| - 1);
    var init := way[..|way| - 1];
    forall i | 0 <= i < |init| ensures StepsUp(nodes, init, i) { assert StepsUp(nodes, way, i); }
  }

  /** `n` steps upward from `id` lead to `above`. */
  predicate Above(nodes: seq<Node>, above: nat, id: nat, n: nat)
    decreases n
  {
    id < |nodes| && if n == 0 then above == id else Above(nodes, above, nodes[id].parent, n - 1)
  }

  ghost predicate IsAbove(nodes: seq<Node>, above: nat, id: nat) {
    exists n: nat :: Above(nodes, above, id, n)
  }

  /** The way down to a node holds the node and its ancestors, and nothing else. */
  lemma {:induction false} LineageIsAncestry(nodes: seq<Node>, way: seq<nat>, id: nat, above: nat)
    requires IsLineage(nodes, way, id) && |nodes| <= NO_PARENT
    ensures above in way <==> IsAbove(nodes, above, id)
    decreases |way|
  {
    WayToParent(nodes, way, id);
    var init, parent := way[..|way| - 1], nodes[id].parent;
    if |way| > 1 { LineageIsAncestry(nodes, init, parent, above); }
    if above == id { assert Above(nodes, above, id, 0); }
    if above in init {
      var n: nat :| Above(nodes, above, parent, n);
      assert Above(nodes, above, id, n + 1);
    }
    if IsAbove(nodes, above, id) {
      var n: nat :| Above(nodes, above, id, n);
      FirstStep(nodes, above, id, n);
    }
  }

  lemma FirstStep(nodes: seq<Node>, above: nat, id: nat, n: nat)
    requires Above(nodes, above, id, n) && |nodes| <= NO_PARENT
    ensures above == id || (nodes[id].parent != NO_PARENT && IsAbove(nodes, above, nodes[id].parent))
  {
    if n > 0 { assert Above(nodes, above, nodes[id].parent, n - 1); }
  }

  /** Bytes added at the end of a way reach its last `levels` nodes. */
  function Reached(way: seq<nat>, levels: nat): seq<nat> {
    if |way| <= levels then way else way[|way| - levels..]
  }

  /** The nodes that a walk of up to `n` levels visits, `id` first; a cycle is walked again and again. */
  function Walk(nodes: seq<Node>, id: nat, n: nat): (walk: seq<nat>)
    requires id < |nodes|
    ensures forall k :: 0 <= k < |walk| ==> walk[k] < |nodes|
    decreases n
  {
    if n == 0 then []
    else if nodes[id].parent >= |nodes| then [id]
    else [id] + Walk(nodes, nodes[id].parent, n - 1)
  }

  lemma {:induction false} WalkFrame(nodes: seq<Node>, after: seq<Node>, id: nat, n: nat)
    requires id < |nodes| == |after| && forall k :: 0 <= k < |nodes| ==> after[k].parent == nodes[k].parent
    ensures Walk(after, id, n) == Walk(nodes, id, n)
    decreases n
  {
    if n > 0 && nodes[id].parent < |nodes| { WalkFrame(nodes, after, nodes[id].parent, n - 1); }
  }

  /** What a node gets from a walk: the bytes, once for each visit. */
  function Given(walk: seq<nat>, bytes: nat, x: nat): nat {
    if walk == [] then 0 else (if walk[0] == x then bytes else 0) + Given(walk[1..], bytes, x)
  }

  lemma {:induction false} GivenElsewhere(walk: seq<nat>, bytes: nat, x: nat)
    requires forall k :: 0 <= k < |walk| ==> walk[k] != x
    ensures Given(walk, bytes, x) == 0
  {
    if walk != [] { GivenElsewhere(walk[1..], bytes, x); }
  }

  /** A node after a walk: what it was given, and all else as it was. */
  predicate Received(node: Node, after: Node, given: nat) {
    && after.subtree == Saturated(node.subtree + given)
    && after.parent == node.parent && after.own == node.own && after.children == node.children
  }

  lemma BumpedAt(nodes: seq<Node>, id: nat, bytes: nat, x: nat)
    requires id < |nodes| && x < |nodes| && nodes[x].subtree <= U64_MAX
    ensures Received(nodes[x], SizeTree.Bumped(nodes, id, bytes)[x], if x == id then bytes else 0)
    ensures SizeTree.Bumped(nodes, id, bytes)[x].subtree <= U64_MAX
  {
  }

  /** On every parent relation, cycles included, each node gets the bytes for each of the walk's visits to it. */
  lemma {:induction false} BumpedUpAt(nodes: seq<Node>, id: nat, bytes: nat, levels: nat, x: nat)
    requires id < |nodes| && x < |nodes| && nodes[x].subtree <= U64_MAX
    ensures Received(nodes[x], SizeTree.BumpedUp(nodes, id, bytes, levels)[x], Given(Walk(nodes, id, levels), bytes, x))
    decreases levels
  {
    if levels > 0 {
      BumpedAt(nodes, id, bytes, x);
      if nodes[id].parent < |nodes| {
        var bumped, parent := SizeTree.Bumped(nodes, id, bytes), nodes[id].parent;
        BumpedUpAt(bumped, parent, bytes, levels - 1, x);
        WalkFrame(nodes, bumped, parent, levels - 1);
        assert Walk(nodes, id, levels)[1..] == Walk(nodes, parent, levels - 1);
      }
    }
  }

  /** On a way from a root, the walk visits the last nodes of the way, each of them once. */
  lemma {:induction false} GivenOnLineage(nodes: seq<Node>, way: seq<nat>, id: nat, bytes: nat, levels: nat, x: nat)
    requires IsLineage(nodes, way, id) && |nodes| <= NO_PARENT
    ensures Given(Walk(nodes, id, levels), bytes, x) == if x in Reached(way, levels) then bytes else 0
    decreases |way|
  {
    if levels == 0 {
      assert Reached(way, levels) == [];
    } else {
      var init := way[..|way| - 1];
      WayToParent(nodes, way, id);
      ReachedOneMore(way, init, id, levels);
      if |way| > 1 {
        GivenOnLineage(nodes, init, nodes[id].parent, bytes, levels - 1, x);
        assert Walk(nodes, id, levels)[1..] == Walk(nodes, nodes[id].parent, levels - 1);
      } else {
        assert Walk(nodes, id, levels)[1..] == [];
      }
    }
  }

  lemma ReachedOneMore(way: seq<nat>, init: seq<nat>, id: nat, levels: nat)
    requires way == init + [id] && id !in init && levels > 0
    ensures forall x :: x in Reached(way, levels) <==> x in Reached(init, levels - 1) || x == id
    ensures id !in Reached(init, levels - 1)
  {
    assert Reached(way, levels) == Reached(init, levels - 1) + [id];
  }

  /** Exactly the nodes that the walk upward reaches get the bytes. */
  lemma BumpedUpSizes(nodes: seq<Node>, way: seq<nat>, id: nat, bytes: nat, levels: nat)
    requires IsLineage(nodes, way, id) && |nodes| <= NO_PARENT
    requires forall x :: 0 <= x < |nodes| ==> nodes[x].subtree <= U64_MAX
    ensures var after := SizeTree.BumpedUp(nodes, id, bytes, levels);
            forall x :: 0 <= x < |nodes| ==> Received(nodes[x], after[x], if x in Reached(way, levels) then bytes else 0)
  {
    var after := SizeTree.BumpedUp(nodes, id, bytes, levels);
    forall x | 0 <= x < |nodes|
      ensures Received(nodes[x], after[x], if x in Reached(way, levels) then bytes else 0)
    {
      BumpedUpAt(nodes, id, bytes, levels, x);
      GivenOnLineage(nodes, way, id, bytes, levels, x);
    }
  }

  /** Below the depth bound every ancestor gets a directory's bytes; beyond it the root does not. */
  lemma BytesReachTheRoot(nodes: seq<Node>, way: seq<nat>, id: nat, bytes: nat)
    requires IsLineage(nodes, way, id) && |nodes| <= NO_PARENT && bytes > 0 && nodes[way[0]].subtree + bytes <= U64_MAX
    ensures SizeTree.BumpedUp(nodes, id, bytes, MAX_DEPTH)[way[0]].subtree == nodes[way[0]].subtree + bytes <==> |way| <= MAX_DEPTH
  {
    BumpedUpAt(nodes, id, bytes, MAX_DEPTH, way[0]);
    GivenOnLineage(nodes, way, id, bytes, MAX_DEPTH, way[0]);
  }

  // -- The chain of ancestors -------------------------------------------------------------------------

  function ParentOf(nodes: seq<Node>, id: nat): nat {
    if id < |nodes| then nodes[id].parent else NO_PARENT
  }

  predicate ClimbsAt(nodes: seq<Node>, upward: seq<nat>, k: nat)
    requires 0 < k < |upward|
  {
    upward[k] == ParentOf(nodes, upward[k - 1]) != NO_PARENT
  }

  /** Upward from `id`, each the parent of the one before, none twice. */
  ghost predicate Climbs(nodes: seq<Node>, upward: seq<nat>, id: nat) {
    && upward != [] && upward[0] == id
    && (forall k :: 0 < k < |upward| ==> ClimbsAt(nodes, upward, k))
    && (forall j, k :: 0 <= j < k < |upward| ==> upward[j] != upward[k])
  }

  /** No parent, the depth bound, or a parent that closes a cycle. */
  predicate Stops(nodes: seq<Node>, upward: seq<nat>)
    requires upward != []
  {
    var parent := ParentOf(nodes, upward[|upward| - 1]);
    parent == NO_PARENT || |upward| >= MAX_DEPTH || parent in upward
  }

  /** The chain of a directory and its ancestors, root first, as far as it goes without a repetition. */
  method AncestorChain(tree: SizeTree, id: nat) returns (chain: seq<nat>)
    ensures Climbs(tree.nodes, Reversed(chain), id) && |chain| <= MAX_DEPTH && Stops(tree.nodes, Reversed(chain))
  {
    var climbed: seq<nat>, current: nat := [id], id;
    while ParentOf(tree.nodes, current) != NO_PARENT
      invariant Climbs(tree.nodes, climbed, id) && |climbed| <= MAX_DEPTH && climbed[|climbed| - 1] == current
      decreases MAX_DEPTH - |climbed|
    {
      var parent := ParentOf(tree.nodes, current);
      if |climbed| >= MAX_DEPTH || parent in climbed { break; }
      ghost var lower := climbed;
      climbed := climbed + [parent];
      forall k | 0 < k < |climbed| ensures ClimbsAt(tree.nodes, climbed, k) {
        if k < |lower| { assert ClimbsAt(tree.nodes, lower, k); }
      }
      current := parent;
    }
    chain := Reversed(climbed);
    assert Reversed(chain) == climbed;
  }

  /** A chain that goes on has not met a reason to stop. */
  lemma GoesOn(nodes: seq<Node>, upward: seq<nat>, id: nat, n: nat)
    requires Climbs(nodes, upward, id) && |upward| <= MAX_DEPTH && 0 < n < |upward|
    ensures !Stops(nodes, upward[..n])
  {
    assert ClimbsAt(nodes, upward, n) && upward[..n][n - 1] == upward[n - 1];
  }

  /** There is one such chain. */
  lemma ClimbIsUnique(nodes: seq<Node>, a: seq<nat>, b: seq<nat>, id: nat)
    requires Climbs(nodes, a, id) && Climbs(nodes, b, id) && |a| <= MAX_DEPTH && |b| <= MAX_DEPTH
    requires Stops(nodes, a) && Stops(nodes, b)
    ensures a == b
  {
    assert a[..|a|] == a && b[..|b|] == b;
    PrefixesAgree(nodes, a, b, id, if |a| < |b| then |a| else |b|);
    if |a| < |b| { GoesOn(nodes, b, id, |a|); }
    if |b| < |a| { GoesOn(nodes, a, id, |b|); }
  }

  lemma {:induction false} PrefixesAgree(nodes: seq<Node>, a: seq<nat>, b: seq<nat>, id: nat, n: nat)
    requires Climbs(nodes, a, id) && Climbs(nodes, b, id) && n <= |a| && n <= |b|
    ensures a[..n] == b[..n]
  {
    if n > 1 {
      PrefixesAgree(nodes, a, b, id, n - 1);
      assert ClimbsAt(nodes, a, n - 1) && ClimbsAt(nodes, b, n - 1);
      assert a[n - 2] == a[..n - 1][n - 2] == b[..n - 1][n - 2] == b[n - 2];
      assert a[..n] == a[..n - 1] + [a[n - 1]] && b[..n] == b[..n - 1] + [b[n - 1]];
    }
  }

  /** The last nodes of a way, read upward. */
  function Upward(way: seq<nat>, n: nat): (upward: seq<nat>)
    requires n <= |way|
    ensures |upward| == n
  {
    seq(n, k requires 0 <= k < n => way[|way| - 1 - k])
  }

  lemma WayClimbs(nodes: seq<Node>, way: seq<nat>, id: nat, n: nat)
    requires IsLineage(nodes, way, id) && |nodes| <= NO_PARENT && 0 < n <= |way|
    ensures Climbs(nodes, Upward(way, n), id)
    ensures ParentOf(nodes, Upward(way, n)[n - 1]) == if n == |way| then NO_PARENT else way[|way| - 1 - n]
  {
    var upward := Upward(way, n);
    forall k | 0 < k < n ensures ClimbsAt(nodes, upward, k) {
      assert StepsUp(nodes, way, |way| - k);
    }
    assert StepsUp(nodes, way, |way| - n);
  }

  /** In a tree the chain is the whole way from the root, or the last 512 nodes of it. */
  lemma ChainOfLineage(nodes: seq<Node>, way: seq<nat>, id: nat, chain: seq<nat>)
    requires IsLineage(nodes, way, id) && |nodes| <= NO_PARENT
    requires Climbs(nodes, Reversed(chain), id) && |chain| <= MAX_DEPTH && Stops(nodes, Reversed(chain))
    ensures chain == Reached(way, MAX_DEPTH)
  {
    var n := if |way| <= MAX_DEPTH then |way| else MAX_DEPTH;
    WayClimbs(nodes, way, id, n);
    ClimbIsUnique(nodes, Reversed(chain), Upward(way, n), id);
    assert chain == Reversed(Upward(way, n));
  }

  // -- A tree that is filled directory by directory ------------------------------------------------

  /** One addition, with the nodes its walk visited. */
  datatype Added = Added(id: nat, bytes: nat, walk: seq<nat>)

  function Total(log: seq<Added>, x: nat): nat {
    if log == [] then 0
    else var last := log[|log| - 1]; Total(log[..|log| - 1], x) + Given(last.walk, last.bytes, x)
  }

  /** Every node holds the saturated sum of what all walks gave it. */
  ghost predicate Propagated(nodes: seq<Node>, log: seq<Added>) {
    && |nodes| <= NO_PARENT
    && (forall x :: 0 <= x < |nodes| ==> nodes[x].subtree == Saturated(Total(log, x)))
    && (forall x: nat :: x >= |nodes| ==> Total(log, x) == 0)
  }

  lemma AddedIsPropagated(nodes: seq<Node>, log: seq<Added>, id: nat, bytes: nat)
    requires Propagated(nodes, log) && id < |nodes|
    ensures Propagated(SizeTree.BumpedUp(nodes, id, bytes, MAX_DEPTH), log + [Added(id, bytes, Walk(nodes, id, MAX_DEPTH))])
  {
    var walk := Walk(nodes, id, MAX_DEPTH);
    var longer := log + [Added(id, bytes, walk)];
    assert longer[..|longer| - 1] == log;
    forall x: nat | x < |nodes|
      ensures SizeTree.BumpedUp(nodes, id, bytes, MAX_DEPTH)[x].subtree == Saturated(Total(longer, x))
    {
      BumpedUpAt(nodes, id, bytes, MAX_DEPTH, x);
    }
    forall x: nat | x >= |nodes| ensures Total(longer, x) == 0 { GivenElsewhere(walk, bytes, x); }
  }

  /** The parent a node has once `id` has been linked below `parent`; a link that exists already stays. */
  function NewParent(nodes: seq<Node>, id: nat, parent: Option<nat>, x: nat): nat {
    if x == id && parent.Some? && parent.value != id && ParentOf(nodes, x) == NO_PARENT then parent.value else ParentOf(nodes, x)
  }

  function OwnOf(nodes: seq<Node>, x: nat): nat {
    if x < |nodes| then nodes[x].own else 0
  }

  /** Parents and own bytes once a directory has been added; sizes are another matter. */
  ghost predicate IsJoined(nodes: seq<Node>, after: seq<Node>, id: nat, parent: Option<nat>, bytes: nat) {
    && |nodes| <= |after| && id < |after|
    && (forall x :: 0 <= x < |after| ==> after[x].parent == NewParent(nodes, id, parent, x))
    && (forall x :: 0 <= x < |after| ==> after[x].own == if x == id then bytes else OwnOf(nodes, x))
  }

  /** The window's model of the tree: directories are added one by one, in any order, and again if they come again. */
  class DirectorySizes {
    const tree: SizeTree
    ghost var log: seq<Added>

    ghost predicate Valid()
      reads this, tree
    {
      tree.Valid() && Propagated(tree.nodes, log)
    }

    constructor ()
      ensures Valid() && fresh(tree) && log == [] && tree.nodes == []
    {
      tree := new SizeTree();
      log := [];
    }

    method AddDirectory(id: nat, parent: Option<nat>, bytes: nat)
      requires Valid() && id < NO_PARENT && (parent.Some? ==> parent.value < NO_PARENT)
      modifies this, tree
      ensures Valid() && IsJoined(old(tree.nodes), tree.nodes, id, parent, bytes)
      ensures log == old(log) + [Added(id, bytes, Walk(tree.nodes, id, MAX_DEPTH))]
    {
      ghost var before := tree.nodes;
      if parent.Some? { tree.Link(id, parent.value); }
      ghost var joined := tree.nodes;
      tree.SetOwn(id, bytes);
      ghost var linked := tree.nodes;
      tree.AddBytes(id, bytes);
      assert SizeTree.Extended(linked, |linked|) == linked;
      AdditionIsRecorded(before, joined, linked, tree.nodes, log, id, parent, bytes);
      log := log + [Added(id, bytes, Walk(tree.nodes, id, MAX_DEPTH))];
    }
  }

  /** What linking leaves behind. */
  ghost predicate IsLinked(nodes: seq<Node>, joined: seq<Node>, id: nat, parent: Option<nat>) {
    if parent.None? then joined == nodes
    else
      && |nodes| <= |joined| && id < |joined| && parent.value < |joined|
      && var before := SizeTree.Extended(nodes, |joined|);
         joined == if before[id].parent == NO_PARENT && id != parent.value
                   then SizeTree.Attached(before, id, parent.value) else before
  }

  ghost predicate HasOwn(joined: seq<Node>, linked: seq<Node>, id: nat, bytes: nat) {
    && |joined| <= |linked| <= NO_PARENT && id < |linked|
    && var before := SizeTree.Extended(joined, |linked|); linked == before[id := before[id].(own := bytes)]
  }

  lemma AdditionIsRecorded(nodes: seq<Node>, joined: seq<Node>, linked: seq<Node>, after: seq<Node>, log: seq<Added>,
                           id: nat, parent: Option<nat>, bytes: nat)
    requires Propagated(nodes, log) && IsLinked(nodes, joined, id, parent) && HasOwn(joined, linked, id, bytes)
    requires after == SizeTree.BumpedUp(linked, id, bytes, MAX_DEPTH)
    ensures Propagated(after, log + [Added(id, bytes, Walk(after, id, MAX_DEPTH))])
    ensures IsJoined(nodes, after, id, parent, bytes)
  {
    NodeIsJoined(nodes, joined, linked, id, parent, bytes);
    SizesStayTotals(nodes, linked, log);
    AddedIsPropagated(linked, log, id, bytes);
    JoinedStays(nodes, linked, after, id, parent, bytes);
  }

  lemma SizesStayTotals(nodes: seq<Node>, linked: seq<Node>, log: seq<Added>)
    requires Propagated(nodes, log) && SameSizes(nodes, linked) && |nodes| <= |linked| <= NO_PARENT
    ensures Propagated(linked, log) && forall x :: 0 <= x < |linked| ==> linked[x].subtree <= U64_MAX
  {
    forall x: nat | x < |linked| ensures linked[x].subtree == Saturated(Total(log, x)) {
      assert SizeOf(linked, x) == SizeOf(nodes, x);
    }
  }

  lemma NodeIsJoined(nodes: seq<Node>, joined: seq<Node>, linked: seq<Node>, id: nat, parent: Option<nat>, bytes: nat)
    requires IsLinked(nodes, joined, id, parent) && HasOwn(joined, linked, id, bytes)
    ensures IsJoined(nodes, linked, id, parent, bytes) && SameSizes(nodes, linked)
  {
  }

  lemma JoinedStays(nodes: seq<Node>, linked: seq<Node>, after: seq<Node>, id: nat, parent: Option<nat>, bytes: nat)
    requires IsJoined(nodes, linked, id, parent, bytes) && after == SizeTree.BumpedUp(linked, id, bytes, MAX_DEPTH)
    requires forall x :: 0 <= x < |linked| ==> linked[x].subtree <= U64_MAX
    ensures IsJoined(nodes, after, id, parent, bytes) && Walk(after, id, MAX_DEPTH) == Walk(linked, id, MAX_DEPTH)
  {
    forall x: nat | x < |after| ensures after[x].parent == linked[x].parent && after[x].own == linked[x].own {
      BumpedUpAt(linked, id, bytes, MAX_DEPTH, x);
    }
    WalkFrame(linked, after, id, MAX_DEPTH);
  }
}
