/** Sort keys that are tuples of numbers and texts, and diagnostics put into canonical form: sorted
    by key, adjacent repeats dropped. */
module Diagnostics {
  import opened Framing
  import opened Ordering

  datatype Atom = Num(number: nat) | Text(text: Bytes)

  type Key = seq<Atom>

  predicate AtomLeq(a: Atom, b: Atom) {
    if a.Num? then b.Text? || a.number <= b.number else b.Text? && LexLeq(a.text, b.text)
  }

  /** The order of tuples: the first component that differs decides. */
  predicate KeyLeq(a: Key, b: Key) {
    a == [] || (b != [] && AtomLeq(a[0], b[0]) && (a[0] == b[0] ==> KeyLeq(a[1..], b[1..])))
  }

  lemma AtomOrder()
    ensures TotalPreorder(AtomLeq) && Antisymmetric(AtomLeq)
  {
    forall a, b ensures AtomLeq(a, b) || AtomLeq(b, a) {
      if a.Text? && b.Text? { LexTotal(a.text, b.text); }
    }
    forall a, b, c | AtomLeq(a, b) && AtomLeq(b, c) ensures AtomLeq(a, c) {
      if a.Text? && b.Text? { LexTransitive(a.text, b.text, c.text); }
    }
    forall a, b | AtomLeq(a, b) && AtomLeq(b, a) ensures a == b {
      if a.Text? && b.Text? { LexAntisymmetric(a.text, b.text); }
    }
  }

  lemma {:induction false} KeyTotal(a: Key, b: Key)
    ensures KeyLeq(a, b) || KeyLeq(b, a)
  {
    AtomOrder();
    if a != [] && b != [] {
      KeyTotal(a[1..], b[1..]);
    }
  }

  lemma {:induction false} KeyAntisymmetric(a: Key, b: Key)
    requires KeyLeq(a, b) && KeyLeq(b, a)
    ensures a == b
  {
    AtomOrder();
    if a != [] {
      KeyAntisymmetric(a[1..], b[1..]);
      assert a == [a[0]] + a[1..] && b == [b[0]] + b[1..];
    }
  }

  lemma {:induction false} KeyTransitive(a: Key, b: Key, c: Key)
    requires KeyLeq(a, b) && KeyLeq(b, c)
    ensures KeyLeq(a, c)
  {
    AtomOrder();
    if a != [] {
      assert AtomLeq(a[0], c[0]);
      if a[0] == c[0] {
        assert a[0] == b[0];
        KeyTransitive(a[1..], b[1..], c[1..]);
      }
    }
  }

  lemma KeyIsTotalOrder()
    ensures TotalPreorder(KeyLeq) && Antisymmetric(KeyLeq)
  {
    forall a, b ensures KeyLeq(a, b) || KeyLeq(b, a) { KeyTotal(a, b); }
    forall a, b, c | KeyLeq(a, b) && KeyLeq(b, c) ensures KeyLeq(a, c) { KeyTransitive(a, b, c); }
    forall a, b | KeyLeq(a, b) && KeyLeq(b, a) ensures a == b { KeyAntisymmetric(a, b); }
  }

  function Keyed<T>(key: T -> Key): (T, T) -> bool {
    (x, y) => KeyLeq(key(x), key(y))
  }

  /** Drops every member equal to the one before it. */
  function Dedup<T(==)>(xs: seq<T>): seq<T> {
    if |xs| < 2 then xs
    else if xs[0] == xs[1] then Dedup(xs[1..])
    else [xs[0]] + Dedup(xs[1..])
  }

  function Canonicalise<T(==)>(key: T -> Key, xs: seq<T>): seq<T> {
    Dedup(Sort(Keyed(key), xs))
  }

  ghost predicate KeyIdentifies<T(!new)>(key: T -> Key) {
    forall x, y :: key(x) == key(y) ==> x == y
  }

  ghost predicate StrictlyIncreasing<T>(key: T -> Key, xs: seq<T>) {
    forall i, j | 0 <= i < j < |xs| :: KeyLeq(key(xs[i]), key(xs[j])) && key(xs[i]) != key(xs[j])
  }

  lemma KeyedIsTotal<T(!new)>(key: T -> Key)
    ensures TotalPreorder(Keyed(key))
  {
    forall x, y ensures Keyed(key)(x, y) || Keyed(key)(y, x) { KeyTotal(key(x), key(y)); }
    forall x, y, z | Keyed(key)(x, y) && Keyed(key)(y, z) ensures Keyed(key)(x, z) {
      KeyTransitive(key(x), key(y), key(z));
    }
  }

  lemma KeyedOrder<T(!new)>(key: T -> Key)
    requires KeyIdentifies(key)
    ensures TotalPreorder(Keyed(key)) && Antisymmetric(Keyed(key))
  {
    KeyIsTotalOrder();
  }

  lemma {:induction false} DedupKeepsMembers<T>(xs: seq<T>)
    ensures forall x :: x in Dedup(xs) <==> x in xs
  {
    if |xs| >= 2 {
      DedupKeepsMembers(xs[1..]);
      assert xs == [xs[0]] + xs[1..];
      assert xs[1] in xs[1..];
    }
  }

  lemma {:induction false} DedupIncreases<T(!new)>(key: T -> Key, xs: seq<T>)
    requires KeyIdentifies(key) && Sorted(Keyed(key), xs)
    ensures StrictlyIncreasing(key, Dedup(xs))
  {
    KeyIsTotalOrder();
    if |xs| >= 2 {
      DedupIncreases(key, xs[1..]);
      var rest := Dedup(xs[1..]);
      if xs[0] != xs[1] {
        forall k | 0 <= k < |rest| ensures KeyLeq(key(xs[0]), key(rest[k])) && key(xs[0]) != key(rest[k]) {
          DedupKeepsMembers(xs[1..]);
          assert rest[k] in rest;
          var m :| 0 <= m < |xs| - 1 && xs[1..][m] == rest[k];
          assert Keyed(key)(xs[0], xs[1]);
          assert Keyed(key)(xs[0], xs[m + 1]);
          assert m > 0 ==> Keyed(key)(xs[1], xs[m + 1]);
        }
      }
    }
  }

  /** The canonical list holds every diagnostic once, in strictly increasing key order. */
  lemma CanonicaliseMeaning<T(!new)>(key: T -> Key, xs: seq<T>)
    requires KeyIdentifies(key)
    ensures forall x :: x in Canonicalise(key, xs) <==> x in xs
    ensures StrictlyIncreasing(key, Canonicalise(key, xs))
  {
    KeyedOrder(key);
    SortPermutes(Keyed(key), xs);
    SortSorts(Keyed(key), xs);
    DedupKeepsMembers(Sort(Keyed(key), xs));
    DedupIncreases(key, Sort(Keyed(key), xs));
  }

  lemma SameLeast<T(!new)>(key: T -> Key, xs: seq<T>, ys: seq<T>)
    requires KeyIdentifies(key) && StrictlyIncreasing(key, xs) && StrictlyIncreasing(key, ys)
    requires (forall x :: x in xs <==> x in ys) && xs != []
    ensures ys != [] && xs[0] == ys[0]
  {
    assert xs[0] in ys;
    assert ys[0] in xs;
    var i :| 0 <= i < |ys| && ys[i] == xs[0];
    var j :| 0 <= j < |xs| && xs[j] == ys[0];
    if i != 0 && j != 0 {
      KeyAntisymmetric(key(xs[0]), key(ys[0]));
    }
  }

  lemma {:induction false} IncreasingIsDetermined<T(!new)>(key: T -> Key, xs: seq<T>, ys: seq<T>)
    requires KeyIdentifies(key) && StrictlyIncreasing(key, xs) && StrictlyIncreasing(key, ys)
    requires forall x :: x in xs <==> x in ys
    ensures xs == ys
    decreases |xs|
  {
    assert ys != [] ==> ys[0] in xs;
    if xs != [] {
      SameLeast(key, xs, ys);
      forall x ensures x in xs[1..] <==> x in ys[1..] {
        TailMembers(key, xs, x);
        TailMembers(key, ys, x);
      }
      IncreasingIsDetermined(key, xs[1..], ys[1..]);
      assert xs == [xs[0]] + xs[1..] && ys == [ys[0]] + ys[1..];
    }
  }

  lemma TailMembers<T(!new)>(key: T -> Key, xs: seq<T>, x: T)
    requires xs != [] && StrictlyIncreasing(key, xs)
    ensures x in xs[1..] <==> x in xs && x != xs[0]
  {
    assert xs == [xs[0]] + xs[1..];
    if x in xs[1..] {
      var i :| 0 <= i < |xs| - 1 && xs[1..][i] == x;
      assert key(xs[0]) != key(xs[i + 1]);
    }
  }

  /** The canonical list depends on nothing but the set of diagnostics. */
  lemma CanonicaliseForgetsOrder<T(!new)>(key: T -> Key, xs: seq<T>, ys: seq<T>)
    requires KeyIdentifies(key) && forall x :: x in xs <==> x in ys
    ensures Canonicalise(key, xs) == Canonicalise(key, ys)
  {
    CanonicaliseMeaning(key, xs);
    CanonicaliseMeaning(key, ys);
    IncreasingIsDetermined(key, Canonicalise(key, xs), Canonicalise(key, ys));
  }
}
