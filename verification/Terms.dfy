/** Erlang's term order, by which ranks are compared. */
module Terms {

  /**
    References, functions, ports and processes are opaque: the runtime gives each a place among its kind. A map is
    its keys in ascending order, integers before floats, and their values in the same order.
   */
  datatype Term =
    | Integer(n: int)
    | Float(r: real)
    | Atom(text: seq<nat>)
    | Reference(place: nat)
    | Function(place: nat)
    | Port(place: nat)
    | Process(place: nat)
    | Tuple(elements: seq<Term>)
    | Map(keys: seq<Term>, values: seq<Term>)
    | List(items: seq<Term>)
    | Binary(bytes: seq<nat>)
  {
    /** Terms of different kinds are ordered by kind alone; the two number types are one kind. */
    function Kind(): nat {
      match this
      case Integer(_) => 0
      case Float(_) => 0
      case Atom(_) => 1
      case Reference(_) => 2
      case Function(_) => 3
      case Port(_) => 4
      case Process(_) => 5
      case Tuple(_) => 6
      case Map(_, _) => 7
      case List(_) => 8
      case Binary(_) => 9
    }

    function Number(): real
      requires Kind() == 0
    {
      if Integer? then n as real else r
    }
  }

  function CompareReals(a: real, b: real): int {
    if a < b then -1 else if a == b then 0 else 1
  }

  /** Lexicographic, a proper prefix first. */
  function CompareNats(a: seq<nat>, b: seq<nat>): int {
    if a == [] then (if b == [] then 0 else -1)
    else if b == [] then 1
    else if a[0] != b[0] then (if a[0] < b[0] then -1 else 1)
    else CompareNats(a[1..], b[1..])
  }

  function CompareInts(a: int, b: int): int {
    if a < b then -1 else if a == b then 0 else 1
  }

  /** Negative, zero or positive as `a` sorts before, with or after `b`; 1 and 1.0 sort together. */
  function Compare(a: Term, b: Term): int {
    CompareTerms(a, b, false)
  }

  /** In map keys, at any depth, the order is exact: there each integer sorts before each float. */
  function CompareTerms(a: Term, b: Term, exact: bool): int
    decreases a, 0
  {
    if a.Kind() != b.Kind() then CompareInts(a.Kind(), b.Kind())
    else match a
      case Integer(_) => if exact && b.Float? then -1 else CompareReals(a.Number(), b.Number())
      case Float(_) => if exact && b.Integer? then 1 else CompareReals(a.Number(), b.Number())
      case Atom(text) => CompareNats(text, b.text)
      case Tuple(elements) =>
        if |elements| != |b.elements| then CompareInts(|elements|, |b.elements|)
        else CompareAll(elements, b.elements, exact)
      case Map(keys, values) =>
        if |keys| != |b.keys| then CompareInts(|keys|, |b.keys|)
        else
          var byKeys := CompareAll(keys, b.keys, true);
          if byKeys != 0 then byKeys else CompareAll(values, b.values, exact)
      case List(items) => CompareAll(items, b.items, exact)
      case Binary(bytes) => CompareNats(bytes, b.bytes)
      case _ => CompareInts(a.place, b.place)
  }

  function CompareAll(a: seq<Term>, b: seq<Term>, exact: bool): int
    decreases a, 1
  {
    if a == [] then (if b == [] then 0 else -1)
    else if b == [] then 1
    else
      var first := CompareTerms(a[0], b[0], exact);
      if first != 0 then first else CompareAll(a[1..], b[1..], exact)
  }

  lemma {:induction false} CompareNatsSymmetric(a: seq<nat>, b: seq<nat>)
    ensures CompareNats(b, a) == -CompareNats(a, b)
  {
    if a != [] && b != [] { CompareNatsSymmetric(a[1..], b[1..]); }
  }

  lemma {:induction false} CompareNatsTransitive(a: seq<nat>, b: seq<nat>, c: seq<nat>)
    requires CompareNats(a, b) <= 0 && CompareNats(b, c) <= 0
    ensures CompareNats(a, c) <= 0
    ensures CompareNats(a, c) == 0 ==> CompareNats(a, b) == 0 && CompareNats(b, c) == 0
  {
    if a != [] && b != [] && c != [] && a[0] == b[0] == c[0] {
      CompareNatsTransitive(a[1..], b[1..], c[1..]);
    }
  }

  lemma CompareSymmetric(a: Term, b: Term)
    ensures Compare(b, a) == -Compare(a, b)
  {
    TermsSymmetric(a, b, false);
  }

  lemma {:induction false} TermsSymmetric(a: Term, b: Term, exact: bool)
    ensures CompareTerms(b, a, exact) == -CompareTerms(a, b, exact)
    decreases a, 0
  {
    if a.Kind() == b.Kind() {
      match a
      case Atom(text) => CompareNatsSymmetric(text, b.text);
      case Binary(bytes) => CompareNatsSymmetric(bytes, b.bytes);
      case Tuple(elements) => AllSymmetric(elements, b.elements, exact);
      case Map(keys, values) =>
        AllSymmetric(keys, b.keys, true);
        AllSymmetric(values, b.values, exact);
      case List(items) => AllSymmetric(items, b.items, exact);
      case _ =>
    }
  }

  lemma {:induction false} AllSymmetric(a: seq<Term>, b: seq<Term>, exact: bool)
    ensures CompareAll(b, a, exact) == -CompareAll(a, b, exact)
    decreases a, 1
  {
    if a != [] && b != [] {
      TermsSymmetric(a[0], b[0], exact);
      AllSymmetric(a[1..], b[1..], exact);
    }
  }

  /** The order is a total preorder: with `CompareSymmetric`, any two terms compare and ties are transitive. */
  lemma CompareTransitive(a: Term, b: Term, c: Term)
    requires Compare(a, b) <= 0 && Compare(b, c) <= 0
    ensures Compare(a, c) <= 0
    ensures Compare(a, c) == 0 ==> Compare(a, b) == 0 && Compare(b, c) == 0
  {
    TermsTransitive(a, b, c, false);
  }

  lemma {:induction false} TermsTransitive(a: Term, b: Term, c: Term, exact: bool)
    requires CompareTerms(a, b, exact) <= 0 && CompareTerms(b, c, exact) <= 0
    ensures CompareTerms(a, c, exact) <= 0
    ensures CompareTerms(a, c, exact) == 0 ==> CompareTerms(a, b, exact) == 0 && CompareTerms(b, c, exact) == 0
    decreases a, 0
  {
    if a.Kind() == b.Kind() == c.Kind() {
      match a
      case Atom(text) => CompareNatsTransitive(text, b.text, c.text);
      case Binary(bytes) => CompareNatsTransitive(bytes, b.bytes, c.bytes);
      case Tuple(elements) =>
        if |elements| == |b.elements| == |c.elements| {
          AllTransitive(elements, b.elements, c.elements, exact);
        }
      case Map(keys, values) =>
        if |keys| == |b.keys| == |c.keys| {
          AllTransitive(keys, b.keys, c.keys, true);
          if CompareAll(keys, c.keys, true) == 0 { AllTransitive(values, b.values, c.values, exact); }
        }
      case List(items) => AllTransitive(items, b.items, c.items, exact);
      case _ =>
    }
  }

  lemma {:induction false} AllTransitive(a: seq<Term>, b: seq<Term>, c: seq<Term>, exact: bool)
    requires CompareAll(a, b, exact) <= 0 && CompareAll(b, c, exact) <= 0
    ensures CompareAll(a, c, exact) <= 0
    ensures CompareAll(a, c, exact) == 0 ==> CompareAll(a, b, exact) == 0 && CompareAll(b, c, exact) == 0
    decreases a, 1
  {
    if a != [] && b != [] && c != [] {
      TermsTransitive(a[0], b[0], c[0], exact);
      if CompareTerms(a[0], c[0], exact) == 0 { AllTransitive(a[1..], b[1..], c[1..], exact); }
    }
  }
}
