/** Count maps, as the coordinator keeps them per error reason and per category. */
module Counts {

  type Counts<!K> = map<K, nat>

  function CountOf<K>(counts: Counts<K>, key: K): nat {
    if key in counts then counts[key] else 0
  }

  function Increment<K>(counts: Counts<K>, key: K): Counts<K> {
    counts[key := CountOf(counts, key) + 1]
  }

  /** Keys of either side, counts of common keys added. */
  function Merge<K>(left: Counts<K>, right: Counts<K>): Counts<K> {
    map key | key in left.Keys + right.Keys :: CountOf(left, key) + CountOf(right, key)
  }

  ghost function Total<K>(counts: Counts<K>): nat {
    if counts == map[] then 0
    else
      var key :| key in counts;
      counts[key] + Total(counts - {key})
  }

  /** The total does not depend on the order of summation. */
  lemma {:induction false} TotalPicksAny<K>(counts: Counts<K>, key: K)
    requires key in counts
    ensures Total(counts) == counts[key] + Total(counts - {key})
    decreases |counts|
  {
    var first :| first in counts && Total(counts) == counts[first] + Total(counts - {first});
    if first != key {
      TotalPicksAny(counts - {first}, key);
      TotalPicksAny(counts - {key}, first);
      assert counts - {first} - {key} == counts - {key} - {first};
    }
  }

  lemma TotalIncrement<K>(counts: Counts<K>, key: K)
    ensures Total(Increment(counts, key)) == Total(counts) + 1
  {
    var after := Increment(counts, key);
    TotalWithout(after, key);
    TotalWithout(counts, key);
    assert after - {key} == counts - {key};
  }

  lemma TotalWithout<K>(counts: Counts<K>, key: K)
    ensures Total(counts) == CountOf(counts, key) + Total(counts - {key})
  {
    if key in counts { TotalPicksAny(counts, key); } else { assert counts - {key} == counts; }
  }

  lemma MergeWithout<K>(left: Counts<K>, right: Counts<K>, key: K)
    ensures Merge(left, right) - {key} == Merge(left - {key}, right - {key})
    ensures CountOf(Merge(left, right), key) == CountOf(left, key) + CountOf(right, key)
  {
  }

  lemma {:induction false} TotalMerge<K>(left: Counts<K>, right: Counts<K>)
    ensures Total(Merge(left, right)) == Total(left) + Total(right)
    decreases |right|
  {
    if right == map[] {
      assert Merge(left, right) == left;
    } else {
      var key :| key in right;
      TotalMerge(left - {key}, right - {key});
      MergeWithout(left, right, key);
      TotalWithout(Merge(left, right), key);
      TotalWithout(left, key);
      TotalWithout(right, key);
    }
  }
}
