/** Bounded lists of the largest files: the bridge's, per directory, and the window's, over all of them. */
module Leaderboards {

  datatype Ranked<T> = Ranked(size: nat, item: T)

  /** `kept` is the `limit` largest of everything offered; what was turned away is no larger than anything kept. */
  ghost predicate IsTop<T(!new)>(limit: nat, offered: multiset<Ranked<T>>, kept: seq<Ranked<T>>) {
    && |kept| <= limit && multiset(kept) <= offered
    && (forall out, k :: out in offered - multiset(kept) && k in kept ==> IsTurnedAway(out, k))
    && (offered - multiset(kept) != multiset{} ==> |kept| == limit)
  }

  predicate IsTurnedAway<T>(out: Ranked<T>, k: Ranked<T>) {
    out.size <= k.size
  }

  // -- The bridge: ascending, the smallest first -------------------------------------------------------

  predicate NotAbove<T>(a: Ranked<T>, b: Ranked<T>) {
    a.size <= b.size
  }

  ghost predicate Ascending<T>(list: seq<Ranked<T>>) {
    forall i, j {:trigger NotAbove(list[i], list[j])} :: 0 <= i < j < |list| ==> NotAbove(list[i], list[j])
  }

  /** Behind everything that is not larger. */
  function InsertBySize<T>(list: seq<Ranked<T>>, entry: Ranked<T>): (r: seq<Ranked<T>>)
    ensures |r| == |list| + 1
  {
    if list == [] || list[0].size > entry.size then [entry] + list
    else [list[0]] + InsertBySize(list[1..], entry)
  }

  lemma {:induction false} InsertMembers<T>(list: seq<Ranked<T>>, entry: Ranked<T>)
    ensures multiset(InsertBySize(list, entry)) == multiset(list) + multiset{entry}
    ensures forall e :: e in InsertBySize(list, entry) <==> e == entry || e in list
  {
    if list != [] && list[0].size <= entry.size {
      InsertMembers(list[1..], entry);
      assert list == [list[0]] + list[1..];
    }
  }

  lemma ConsAscends<T>(first: Ranked<T>, list: seq<Ranked<T>>)
    requires Ascending(list) && forall e :: e in list ==> first.size <= e.size
    ensures Ascending([first] + list)
  {
    var all := [first] + list;
    forall i, j | 0 <= i < j < |all| ensures NotAbove(all[i], all[j]) {
      assert all[j] == list[j - 1] && all[j] in list;
      if i > 0 { assert NotAbove(list[i - 1], list[j - 1]); }
    }
  }

  lemma TailAscends<T>(list: seq<Ranked<T>>)
    requires Ascending(list) && list != []
    ensures Ascending(list[1..]) && forall e :: e in list ==> list[0].size <= e.size
  {
    forall e | e in list ensures list[0].size <= e.size {
      var i :| 0 <= i < |list| && list[i] == e;
      if i > 0 { assert NotAbove(list[0], list[i]); }
    }
    forall i, j | 0 <= i < j < |list| - 1 ensures NotAbove(list[1..][i], list[1..][j]) {
      assert NotAbove(list[i + 1], list[j + 1]);
    }
  }

  lemma {:induction false} InsertAscends<T>(list: seq<Ranked<T>>, entry: Ranked<T>)
    requires Ascending(list)
    ensures Ascending(InsertBySize(list, entry))
  {
    if list != [] {
      TailAscends(list);
      if list[0].size > entry.size {
        ConsAscends(entry, list);
      } else {
        InsertAscends(list[1..], entry);
        InsertMembers(list[1..], entry);
        var rest := InsertBySize(list[1..], entry);
        forall e | e in rest ensures list[0].size <= e.size {
          assert e in multiset(rest) && e in multiset(list[1..]) + multiset{entry};
          assert e == entry || e in list;
        }
        ConsAscends(list[0], rest);
      }
    }
  }

  /** Empty files never enter; a full list gives up its smallest for a strictly larger one. */
  function NoteLargest<T>(largest: seq<Ranked<T>>, entry: Ranked<T>, limit: nat): seq<Ranked<T>> {
    if limit == 0 || entry.size == 0 then largest
    else if |largest| < limit then InsertBySize(largest, entry)
    else if entry.size > largest[0].size then InsertBySize(largest[1..], entry)
    else largest
  }

  ghost predicate IsLeaderboard<T(!new)>(limit: nat, offered: multiset<Ranked<T>>, largest: seq<Ranked<T>>) {
    Ascending(largest) && IsTop(limit, offered, largest)
  }

  lemma NoteLargestFills<T(!new)>(largest: seq<Ranked<T>>, entry: Ranked<T>, limit: nat, offered: multiset<Ranked<T>>)
    requires IsLeaderboard(limit, offered, largest) && |largest| < limit && entry.size > 0
    ensures IsLeaderboard(limit, offered + multiset{entry}, NoteLargest(largest, entry, limit))
  {
    InsertAscends(largest, entry);
    InsertMembers(largest, entry);
    assert offered == multiset(largest) + (offered - multiset(largest));
  }

  lemma NoteLargestReplaces<T(!new)>(largest: seq<Ranked<T>>, entry: Ranked<T>, limit: nat, offered: multiset<Ranked<T>>)
    requires IsLeaderboard(limit, offered, largest) && |largest| == limit && limit > 0 && entry.size > largest[0].size
    ensures IsLeaderboard(limit, offered + multiset{entry}, NoteLargest(largest, entry, limit))
  {
    TailAscends(largest);
    InsertAscends(largest[1..], entry);
    InsertMembers(largest[1..], entry);
    var kept, all := InsertBySize(largest[1..], entry), offered + multiset{entry};
    assert largest == [largest[0]] + largest[1..];
    assert multiset(largest) == multiset{largest[0]} + multiset(largest[1..]);
    assert all - multiset(kept) == offered - multiset(largest) + multiset{largest[0]};
    forall out, k | out in all - multiset(kept) && k in kept ensures IsTurnedAway(out, k) {
      if out in offered - multiset(largest) { assert IsTurnedAway(out, largest[0]); }
    }
  }

  lemma NoteLargestRefuses<T(!new)>(largest: seq<Ranked<T>>, entry: Ranked<T>, limit: nat, offered: multiset<Ranked<T>>)
    requires IsLeaderboard(limit, offered, largest) && |largest| == limit
    requires limit > 0 ==> entry.size <= largest[0].size
    ensures IsLeaderboard(limit, offered + multiset{entry}, largest)
  {
    var all := offered + multiset{entry};
    assert all - multiset(largest) == offered - multiset(largest) + multiset{entry};
    if largest != [] { TailAscends(largest); }
    forall out, k | out in all - multiset(largest) && k in largest ensures IsTurnedAway(out, k) {
      if out in offered - multiset(largest) { assert IsTurnedAway(out, k); }
    }
  }

  /** One more file: the list is again the largest of all the non-empty ones offered. */
  lemma NoteLargestKeepsTop<T(!new)>(largest: seq<Ranked<T>>, entry: Ranked<T>, limit: nat, offered: multiset<Ranked<T>>)
    requires IsLeaderboard(limit, offered, largest)
    ensures IsLeaderboard(limit, if entry.size > 0 then offered + multiset{entry} else offered,
                          NoteLargest(largest, entry, limit))
  {
    if entry.size == 0 {
    } else if |largest| < limit {
      NoteLargestFills(largest, entry, limit, offered);
    } else if limit > 0 && entry.size > largest[0].size {
      NoteLargestReplaces(largest, entry, limit, offered);
    } else {
      NoteLargestRefuses(largest, entry, limit, offered);
    }
  }

  // -- The window: descending, the largest first --------------------------------------------------------

  const TOP_LIMIT: nat := 100

  ghost predicate Descending<T>(list: seq<Ranked<T>>) {
    forall i, j {:trigger NotAbove(list[j], list[i])} :: 0 <= i < j < |list| ==> NotAbove(list[j], list[i])
  }

  predicate IsCandidate<T>(list: seq<Ranked<T>>, size: nat) {
    |list| < TOP_LIMIT || size > list[|list| - 1].size
  }

  class TopFiles<T(!new)> {
    var files: seq<Ranked<T>>
    ghost var offered: multiset<Ranked<T>>

    ghost predicate Valid()
      reads this
    {
      Descending(files) && IsTop(TOP_LIMIT, offered, files)
    }

    constructor ()
      ensures Valid() && offered == multiset{}
    {
      files, offered := [], multiset{};
    }

    /** The first place whose file is smaller, by bisection. */
    method Position(size: nat) returns (place: nat)
      requires Descending(files)
      ensures place <= |files|
      ensures forall i :: 0 <= i < place ==> files[i].size >= size
      ensures forall i :: place <= i < |files| ==> files[i].size < size
    {
      var low, high := 0, |files|;
      while low < high
        invariant 0 <= low <= high <= |files|
        invariant forall i :: 0 <= i < low ==> files[i].size >= size
        invariant forall i :: high <= i < |files| ==> files[i].size < size
      {
        var middle := (low + high) / 2;
        assert forall i :: 0 <= i < middle ==> NotAbove(files[middle], files[i]);
        assert forall i :: middle < i < |files| ==> NotAbove(files[i], files[middle]);
        if files[middle].size >= size { low := middle + 1; } else { high := middle; }
      }
      place := low;
    }

    /** Takes a file in if it qualifies, behind those of the same size, and drops what is then too much. */
    method Merge(entry: Ranked<T>)
      requires Valid()
      modifies this
      ensures Valid() && offered == old(offered) + multiset{entry}
      ensures files == old(files) || IsCandidate(old(files), entry.size)
    {
      if !IsCandidate(files, entry.size) {
        RefusedStaysTop(files, entry, offered);
        offered := offered + multiset{entry};
        return;
      }
      var place := Position(entry.size);
      var longer := files[..place] + [entry] + files[place..];
      InsertedIsTop(files, entry, place, offered);
      TruncatedIsTop(longer, offered + multiset{entry});
      files := if |longer| > TOP_LIMIT then longer[..TOP_LIMIT] else longer;
      offered := offered + multiset{entry};
    }

    /** Offers the candidates of one directory, largest first, and stops at the first that does not qualify. */
    method MergeDirectory(candidates: seq<Ranked<T>>)
      requires Valid() && Descending(candidates)
      modifies this
      ensures Valid() && offered == old(offered) + multiset(candidates)
    {
      var i := MergeFront(candidates);
      OfferedSoFar(old(offered), candidates, i);
      if i < |candidates| { RestRefused(files, candidates, i, offered); }
      offered := offered + multiset(candidates[i..]);
    }

    /** Merges candidates until one does not qualify. */
    method MergeFront(candidates: seq<Ranked<T>>) returns (i: nat)
      requires Valid()
      modifies this
      ensures Valid() && i <= |candidates| && offered == old(offered) + multiset(candidates[..i])
      ensures i < |candidates| ==> !IsCandidate(files, candidates[i].size)
    {
      i := 0;
      OfferedSoFar(offered, candidates, 0);
      while i < |candidates| && IsCandidate(files, candidates[i].size)
        invariant Valid() && i <= |candidates| && offered == old(offered) + multiset(candidates[..i])
      {
        OfferedSoFar(old(offered), candidates, i);
        Merge(candidates[i]);
        i := i + 1;
      }
    }
  }

  lemma OfferedSoFar<T(!new)>(offered: multiset<Ranked<T>>, candidates: seq<Ranked<T>>, i: nat)
    requires i <= |candidates|
    ensures offered + multiset(candidates[..i]) + multiset(candidates[i..]) == offered + multiset(candidates)
    ensures i < |candidates| ==>
              offered + multiset(candidates[..i]) + multiset{candidates[i]} == offered + multiset(candidates[..i + 1])
    ensures i == |candidates| ==> offered + multiset(candidates[..i]) == offered + multiset(candidates)
    ensures i == 0 ==> offered + multiset(candidates[..i]) == offered
  {
    assert candidates == candidates[..i] + candidates[i..];
    if i < |candidates| { assert candidates[..i + 1] == candidates[..i] + [candidates[i]]; }
    if i == |candidates| { assert candidates[..i] == candidates; }
  }

  lemma RefusedStaysTop<T(!new)>(files: seq<Ranked<T>>, entry: Ranked<T>, offered: multiset<Ranked<T>>)
    requires Descending(files) && IsTop(TOP_LIMIT, offered, files) && !IsCandidate(files, entry.size)
    ensures IsTop(TOP_LIMIT, offered + multiset{entry}, files)
  {
    var all := offered + multiset{entry};
    assert all - multiset(files) == offered - multiset(files) + multiset{entry};
    forall out, k | out in all - multiset(files) && k in files ensures IsTurnedAway(out, k) {
      if out in offered - multiset(files) { assert IsTurnedAway(out, k); }
      var i :| 0 <= i < |files| && files[i] == k;
      if i < |files| - 1 { assert NotAbove(files[|files| - 1], files[i]); }
    }
  }

  /** No later candidate of a directory can qualify once one has not. */
  lemma {:induction false} RestRefused<T(!new)>(files: seq<Ranked<T>>, candidates: seq<Ranked<T>>, i: nat, offered: multiset<Ranked<T>>)
    requires Descending(files) && IsTop(TOP_LIMIT, offered, files) && Descending(candidates)
    requires i < |candidates| && !IsCandidate(files, candidates[i].size)
    ensures IsTop(TOP_LIMIT, offered + multiset(candidates[i..]), files)
    decreases |candidates| - i
  {
    RefusedStaysTop(files, candidates[i], offered);
    assert candidates[i..] == [candidates[i]] + candidates[i + 1..];
    if i + 1 < |candidates| {
      assert NotAbove(candidates[i + 1], candidates[i]);
      RestRefused(files, candidates, i + 1, offered + multiset{candidates[i]});
      assert offered + multiset{candidates[i]} + multiset(candidates[i + 1..]) == offered + multiset(candidates[i..]);
    } else {
      assert candidates[i..] == [candidates[i]];
    }
  }

  lemma InsertedDescends<T(!new)>(files: seq<Ranked<T>>, entry: Ranked<T>, place: nat)
    requires Descending(files) && place <= |files|
    requires forall i :: 0 <= i < place ==> files[i].size >= entry.size
    requires forall i :: place <= i < |files| ==> files[i].size < entry.size
    ensures Descending(files[..place] + [entry] + files[place..])
  {
    var longer := files[..place] + [entry] + files[place..];
    forall i, j | 0 <= i < j < |longer| ensures NotAbove(longer[j], longer[i]) {
      var a, b := if i < place then i else i - 1, if j < place then j else j - 1;
      if i != place && j != place { assert NotAbove(files[b], files[a]); }
    }
  }

  lemma InsertedIsTop<T(!new)>(files: seq<Ranked<T>>, entry: Ranked<T>, place: nat, offered: multiset<Ranked<T>>)
    requires Descending(files) && IsTop(TOP_LIMIT, offered, files) && IsCandidate(files, entry.size)
    requires place <= |files|
    requires forall i :: 0 <= i < place ==> files[i].size >= entry.size
    requires forall i :: place <= i < |files| ==> files[i].size < entry.size
    ensures IsAlmostTop(files[..place] + [entry] + files[place..], offered + multiset{entry})
  {
    InsertedDescends(files, entry, place);
    var longer, all := files[..place] + [entry] + files[place..], offered + multiset{entry};
    assert files == files[..place] + files[place..];
    assert multiset(longer) == multiset(files) + multiset{entry};
    InsertedTurnsAway(files, longer, entry, offered);
  }

  lemma InsertedTurnsAway<T(!new)>(files: seq<Ranked<T>>, longer: seq<Ranked<T>>, entry: Ranked<T>, offered: multiset<Ranked<T>>)
    requires IsTop(TOP_LIMIT, offered, files) && IsCandidate(files, entry.size)
    requires multiset(longer) == multiset(files) + multiset{entry}
    ensures offered + multiset{entry} - multiset(longer) == offered - multiset(files)
    ensures forall out, k :: out in offered - multiset(files) && k in longer ==> IsTurnedAway(out, k)
  {
    forall out, k | out in offered - multiset(files) && k in longer ensures IsTurnedAway(out, k) {
      if k == entry {
        assert IsTurnedAway(out, files[|files| - 1]);
      } else {
        assert k in multiset(longer) && k in multiset(files);
        assert IsTurnedAway(out, k);
      }
    }
  }

  /** Sorted and larger than everything turned away, with room for one too many. */
  ghost predicate IsAlmostTop<T(!new)>(longer: seq<Ranked<T>>, offered: multiset<Ranked<T>>) {
    && Descending(longer) && |longer| <= TOP_LIMIT + 1 && multiset(longer) <= offered
    && (forall out, k :: out in offered - multiset(longer) && k in longer ==> IsTurnedAway(out, k))
    && (offered - multiset(longer) != multiset{} ==> |longer| == TOP_LIMIT + 1)
  }

  lemma TruncatedIsTop<T(!new)>(longer: seq<Ranked<T>>, offered: multiset<Ranked<T>>)
    requires IsAlmostTop(longer, offered)
    ensures var kept := if |longer| > TOP_LIMIT then longer[..TOP_LIMIT] else longer;
            Descending(kept) && IsTop(TOP_LIMIT, offered, kept)
  {
    if |longer| > TOP_LIMIT {
      var kept, last := longer[..TOP_LIMIT], longer[TOP_LIMIT];
      assert longer == kept + [last];
      assert offered - multiset(kept) == offered - multiset(longer) + multiset{last};
      forall i, j | 0 <= i < j < |kept| ensures NotAbove(kept[j], kept[i]) { assert NotAbove(longer[j], longer[i]); }
      forall out, k | out in offered - multiset(kept) && k in kept ensures IsTurnedAway(out, k) {
        if out in offered - multiset(longer) { assert k in longer && IsTurnedAway(out, k); }
        var i :| 0 <= i < |kept| && kept[i] == k;
        assert NotAbove(longer[TOP_LIMIT], longer[i]);
      }
    }
  }
}
