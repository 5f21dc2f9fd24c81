/** Which of two terms is the greater, kind by kind. */
module TermOrders {
  import opened Terms

  /** number < atom < reference < function < port < process < tuple < map < list < binary, whatever the contents. */
  lemma KindsAscend(a: Term, b: Term, exact: bool)
    ensures (a.Integer? || a.Float?) && b.Atom? ==> CompareTerms(a, b, exact) < 0
    ensures a.Atom? && b.Reference? ==> CompareTerms(a, b, exact) < 0
    ensures a.Reference? && b.Function? ==> CompareTerms(a, b, exact) < 0
    ensures a.Function? && b.Port? ==> CompareTerms(a, b, exact) < 0
    ensures a.Port? && b.Process? ==> CompareTerms(a, b, exact) < 0
    ensures a.Process? && b.Tuple? ==> CompareTerms(a, b, exact) < 0
    ensures a.Tuple? && b.Map? ==> CompareTerms(a, b, exact) < 0
    ensures a.Map? && b.List? ==> CompareTerms(a, b, exact) < 0
    ensures a.List? && b.Binary? ==> CompareTerms(a, b, exact) < 0
  {
  }

  /** Numbers ascend by value, whatever their type; among map keys every integer comes before every float. */
  lemma NumbersAscend(m: int, n: int, x: real, y: real)
    ensures Compare(Integer(m), Integer(n)) < 0 <==> m < n
    ensures Compare(Float(x), Float(y)) < 0 <==> x < y
    ensures Compare(Integer(m), Float(x)) < 0 <==> m as real < x
    ensures Compare(Float(x), Integer(m)) < 0 <==> x < m as real
    ensures CompareTerms(Integer(m), Integer(n), true) < 0 <==> m < n
    ensures CompareTerms(Float(x), Float(y), true) < 0 <==> x < y
    ensures CompareTerms(Integer(m), Float(x), true) < 0 < CompareTerms(Float(x), Integer(m), true)
  {
  }

  /** References, functions, ports and processes ascend by their place. */
  lemma PlacesAscend(m: nat, n: nat, exact: bool)
    ensures CompareTerms(Reference(m), Reference(n), exact) < 0 <==> m < n
    ensures CompareTerms(Function(m), Function(n), exact) < 0 <==> m < n
    ensures CompareTerms(Port(m), Port(n), exact) < 0 <==> m < n
    ensures CompareTerms(Process(m), Process(n), exact) < 0 <==> m < n
  {
  }

  lemma {:induction false} NatsDifferFirstAt(a: seq<nat>, b: seq<nat>, k: nat)
    requires k <= |a| && k <= |b| && a[..k] == b[..k]
    ensures k == |a| < |b| ==> CompareNats(a, b) < 0
    ensures k < |a| && k < |b| && a[k] < b[k] ==> CompareNats(a, b) < 0
    ensures k == |a| == |b| ==> CompareNats(a, b) == 0
  {
    if k > 0 {
      assert a[0] == a[..k][0] == b[..k][0] == b[0];
      assert a[1..][..k - 1] == a[..k][1..] == b[..k][1..] == b[1..][..k - 1];
      NatsDifferFirstAt(a[1..], b[1..], k - 1);
    }
  }

  /** Atoms and binaries ascend at their first difference, a proper prefix first. */
  lemma TextsAscend(a: seq<nat>, b: seq<nat>, k: nat, exact: bool)
    requires k <= |a| && k < |b| && a[..k] == b[..k] && (k < |a| ==> a[k] < b[k])
    ensures CompareTerms(Atom(a), Atom(b), exact) < 0 && CompareTerms(Binary(a), Binary(b), exact) < 0
  {
    NatsDifferFirstAt(a, b, k);
  }

  /** The first `k` elements tie, one by one. */
  ghost predicate TieUpTo(a: seq<Term>, b: seq<Term>, k: nat, exact: bool) {
    k <= |a| && k <= |b| && forall j :: 0 <= j < k ==> CompareTerms(a[j], b[j], exact) == 0
  }

  lemma {:induction false} TermsDifferFirstAt(a: seq<Term>, b: seq<Term>, k: nat, exact: bool)
    requires TieUpTo(a, b, k, exact)
    ensures k == |a| < |b| ==> CompareAll(a, b, exact) < 0
    ensures k == |a| == |b| ==> CompareAll(a, b, exact) == 0
    ensures k < |a| && k < |b| && CompareTerms(a[k], b[k], exact) < 0 ==> CompareAll(a, b, exact) < 0
  {
    if k > 0 {
      assert CompareTerms(a[0], b[0], exact) == 0;
      assert forall j {:trigger a[1..][j]} :: 0 <= j < k - 1 ==> CompareTerms(a[1..][j], b[1..][j], exact) == CompareTerms(a[j + 1], b[j + 1], exact);
      TermsDifferFirstAt(a[1..], b[1..], k - 1, exact);
    }
  }

  /** Lists ascend at their first difference, a proper prefix first. */
  lemma ListsAscend(a: seq<Term>, b: seq<Term>, k: nat, exact: bool)
    requires TieUpTo(a, b, k, exact) && k < |b| && (k < |a| ==> CompareTerms(a[k], b[k], exact) < 0)
    ensures CompareTerms(List(a), List(b), exact) < 0
  {
    TermsDifferFirstAt(a, b, k, exact);
  }

  /** Tuples ascend by size, and tuples of one size at their first difference. */
  lemma TuplesAscend(a: seq<Term>, b: seq<Term>, k: nat, exact: bool)
    ensures |a| < |b| ==> CompareTerms(Tuple(a), Tuple(b), exact) < 0
    ensures |a| == |b| && TieUpTo(a, b, k, exact) && k < |a| && CompareTerms(a[k], b[k], exact) < 0 ==>
              CompareTerms(Tuple(a), Tuple(b), exact) < 0
  {
    if TieUpTo(a, b, k, exact) { TermsDifferFirstAt(a, b, k, exact); }
  }

  /** Maps ascend by size, then at the first different key, and with the same keys at the first different value. */
  lemma MapsAscend(a: Term, b: Term, k: nat, exact: bool)
    requires a.Map? && b.Map?
    ensures |a.keys| < |b.keys| ==> CompareTerms(a, b, exact) < 0
    ensures |a.keys| == |b.keys| && TieUpTo(a.keys, b.keys, k, true) && k < |a.keys| && CompareTerms(a.keys[k], b.keys[k], true) < 0 ==>
              CompareTerms(a, b, exact) < 0
    ensures |a.keys| == |b.keys| && TieUpTo(a.keys, b.keys, |a.keys|, true) && TieUpTo(a.values, b.values, k, exact)
            && k < |a.values| && k < |b.values| && CompareTerms(a.values[k], b.values[k], exact) < 0 ==>
              CompareTerms(a, b, exact) < 0
  {
    if |a.keys| == |b.keys| && TieUpTo(a.keys, b.keys, k, true) { TermsDifferFirstAt(a.keys, b.keys, k, true); }
    if |a.keys| == |b.keys| && TieUpTo(a.keys, b.keys, |a.keys|, true) { TermsDifferFirstAt(a.keys, b.keys, |a.keys|, true); }
    if TieUpTo(a.values, b.values, k, exact) { TermsDifferFirstAt(a.values, b.values, k, exact); }
  }
}
