/** Lexicographic byte order, sorting by a total preorder, and what makes a sorted sequence unique. */
module Ordering {
  import opened Framing

  /** `a <= b` for byte strings and strings: the order of the first difference, a prefix first. */
  predicate LexLeq(a: Bytes, b: Bytes) {
    a == [] || (b != [] && (a[0] < b[0] || (a[0] == b[0] && LexLeq(a[1..], b[1..]))))
  }

  predicate LexLess(a: Bytes, b: Bytes) {
    LexLeq(a, b) && a != b
  }

  lemma {:induction false} LexTotal(a: Bytes, b: Bytes)
    ensures LexLeq(a, b) || LexLeq(b, a)
    ensures LexLeq(a, a)
  {
    if a != [] {
      LexTotal(a[1..], if b == [] then [] else b[1..]);
    }
  }

  lemma {:induction false} LexAntisymmetric(a: Bytes, b: Bytes)
    requires LexLeq(a, b) && LexLeq(b, a)
    ensures a == b
  {
    if a != [] {
      LexAntisymmetric(a[1..], b[1..]);
      assert a == [a[0]] + a[1..] && b == [b[0]] + b[1..];
    }
  }

  lemma {:induction false} LexTransitive(a: Bytes, b: Bytes, c: Bytes)
    requires LexLeq(a, b) && LexLeq(b, c)
    ensures LexLeq(a, c)
  {
    if a != [] && a[0] == b[0] == c[0] {
      LexTransitive(a[1..], b[1..], c[1..]);
    }
  }

  /** What a comparison function has to satisfy before a sort may be asked to use it. */
  ghost predicate TotalPreorder<T(!new)>(leq: (T, T) -> bool) {
    && (forall x, y :: leq(x, y) || leq(y, x))
    && (forall x, y, z :: leq(x, y) && leq(y, z) ==> leq(x, z))
  }

  ghost predicate Antisymmetric<T(!new)>(leq: (T, T) -> bool) {
    forall x, y :: leq(x, y) && leq(y, x) ==> x == y
  }

  lemma LexIsTotalOrder()
    ensures TotalPreorder(LexLeq)
    ensures Antisymmetric(LexLeq)
  {
    forall x, y ensures LexLeq(x, y) || LexLeq(y, x) { LexTotal(x, y); }
    forall x, y, z | LexLeq(x, y) && LexLeq(y, z) ensures LexLeq(x, z) { LexTransitive(x, y, z); }
    forall x, y | LexLeq(x, y) && LexLeq(y, x) ensures x == y { LexAntisymmetric(x, y); }
  }

  ghost predicate Sorted<T>(leq: (T, T) -> bool, xs: seq<T>) {
    forall i, j | 0 <= i < j < |xs| :: leq(xs[i], xs[j])
  }

  /** Members that compare as equal are equal: then a sorted arrangement is unique. */
  ghost predicate Discriminates<T>(leq: (T, T) -> bool, xs: seq<T>) {
    forall x, y | x in xs && y in xs && leq(x, y) && leq(y, x) :: x == y
  }

  function Insert<T>(leq: (T, T) -> bool, x: T, xs: seq<T>): seq<T> {
    if xs == [] || leq(x, xs[0]) then [x] + xs else [xs[0]] + Insert(leq, x, xs[1..])
  }

  /** The standard library's stable sort by a comparison function. */
  function Sort<T>(leq: (T, T) -> bool, xs: seq<T>): seq<T> {
    if xs == [] then [] else Insert(leq, xs[0], Sort(leq, xs[1..]))
  }

  lemma {:induction false} InsertPermutes<T>(leq: (T, T) -> bool, x: T, xs: seq<T>)
    ensures multiset(Insert(leq, x, xs)) == multiset([x] + xs)
  {
    if xs != [] && !leq(x, xs[0]) {
      InsertPermutes(leq, x, xs[1..]);
      assert xs == [xs[0]] + xs[1..];
    }
  }

  lemma {:induction false} SortPermutes<T>(leq: (T, T) -> bool, xs: seq<T>)
    ensures multiset(Sort(leq, xs)) == multiset(xs)
    ensures |Sort(leq, xs)| == |xs|
    ensures forall x :: x in Sort(leq, xs) <==> x in xs
  {
    if xs != [] {
      SortPermutes(leq, xs[1..]);
      InsertPermutes(leq, xs[0], Sort(leq, xs[1..]));
      assert xs == [xs[0]] + xs[1..];
    }
    SameMembers(Sort(leq, xs), xs);
  }

  lemma SameMembers<T>(xs: seq<T>, ys: seq<T>)
    requires multiset(xs) == multiset(ys)
    ensures |xs| == |ys|
    ensures forall x :: x in xs <==> x in ys
  {
    assert |multiset(xs)| == |xs| && |multiset(ys)| == |ys|;
    forall x ensures x in xs <==> x in ys {
      assert x in xs <==> x in multiset(xs);
      assert x in ys <==> x in multiset(ys);
    }
  }

  lemma {:induction false} InsertSorted<T(!new)>(leq: (T, T) -> bool, x: T, xs: seq<T>)
    requires TotalPreorder(leq) && Sorted(leq, xs)
    ensures Sorted(leq, Insert(leq, x, xs))
  {
    if xs != [] && !leq(x, xs[0]) {
      InsertSorted(leq, x, xs[1..]);
      InsertPermutes(leq, x, xs[1..]);
      var rest := Insert(leq, x, xs[1..]);
      SameMembers(rest, [x] + xs[1..]);
      forall k | 0 <= k < |rest| ensures leq(xs[0], rest[k]) {
        assert rest[k] in rest;
        assert rest[k] in [x] + xs[1..];
      }
    }
  }

  lemma {:induction false} SortSorts<T(!new)>(leq: (T, T) -> bool, xs: seq<T>)
    requires TotalPreorder(leq)
    ensures Sorted(leq, Sort(leq, xs))
  {
    if xs != [] {
      SortSorts(leq, xs[1..]);
      InsertSorted(leq, xs[0], Sort(leq, xs[1..]));
    }
  }

  function Without<T>(xs: seq<T>, k: nat): (rest: seq<T>)
    requires k < |xs|
    ensures |rest| == |xs| - 1
  {
    xs[..k] + xs[k + 1..]
  }

  lemma WithoutPermutes<T>(xs: seq<T>, k: nat)
    requires k < |xs|
    ensures multiset(xs) == multiset(Without(xs, k)) + multiset{xs[k]}
  {
    assert xs == xs[..k] + [xs[k]] + xs[k + 1..];
  }

  /** Removing one occurrence of the same member keeps two permutations permutations. */
  lemma WithoutSame<T>(xs: seq<T>, ys: seq<T>, i: nat, j: nat)
    requires multiset(xs) == multiset(ys) && i < |xs| && j < |ys| && xs[i] == ys[j]
    ensures multiset(Without(xs, i)) == multiset(Without(ys, j))
  {
    WithoutPermutes(xs, i);
    WithoutPermutes(ys, j);
    var a, b, c := multiset(Without(xs, i)), multiset(Without(ys, j)), multiset{xs[i]};
    assert a == (a + c) - c && b == (b + c) - c;
  }

  lemma SameHead<T>(leq: (T, T) -> bool, xs: seq<T>, ys: seq<T>)
    requires Sorted(leq, xs) && Sorted(leq, ys) && multiset(xs) == multiset(ys)
    requires Discriminates(leq, xs) && xs != []
    ensures ys != [] && xs[0] == ys[0]
  {
    SameMembers(xs, ys);
    assert xs[0] in ys && ys[0] in xs;
    var i :| 0 <= i < |ys| && ys[i] == xs[0];
    var j :| 0 <= j < |xs| && xs[j] == ys[0];
    if i != 0 && j != 0 {
      assert leq(ys[0], ys[i]) && leq(xs[0], xs[j]);
    }
  }

  lemma TailsMatch<T>(leq: (T, T) -> bool, xs: seq<T>, ys: seq<T>)
    requires Sorted(leq, xs) && Sorted(leq, ys) && multiset(xs) == multiset(ys) && Discriminates(leq, xs)
    requires xs != [] && ys != [] && xs[0] == ys[0]
    ensures Sorted(leq, xs[1..]) && Sorted(leq, ys[1..]) && Discriminates(leq, xs[1..])
    ensures multiset(xs[1..]) == multiset(ys[1..])
  {
    WithoutSame(xs, ys, 0, 0);
    assert Without(xs, 0) == xs[1..] && Without(ys, 0) == ys[1..];
    assert forall member | member in xs[1..] :: member in xs;
  }

  lemma {:induction false} SortedUnique<T>(leq: (T, T) -> bool, xs: seq<T>, ys: seq<T>)
    requires Sorted(leq, xs) && Sorted(leq, ys) && multiset(xs) == multiset(ys)
    requires Discriminates(leq, xs)
    ensures xs == ys
    decreases |xs|
  {
    SameMembers(xs, ys);
    if xs != [] {
      SameHead(leq, xs, ys);
      TailsMatch(leq, xs, ys);
      SortedUnique(leq, xs[1..], ys[1..]);
      assert xs == [xs[0]] + xs[1..] && ys == [ys[0]] + ys[1..];
    }
  }

  /** Whatever algorithm a sort uses, on discriminated members its result is `Sort`'s. */
  lemma SortIsCanonical<T(!new)>(leq: (T, T) -> bool, xs: seq<T>, ys: seq<T>)
    requires TotalPreorder(leq) && Discriminates(leq, xs)
    requires multiset(xs) == multiset(ys)
    ensures Sort(leq, xs) == Sort(leq, ys)
    ensures Sorted(leq, ys) ==> Sort(leq, xs) == ys
  {
    SortPermutes(leq, xs);
    SortPermutes(leq, ys);
    SortSorts(leq, xs);
    SortSorts(leq, ys);
    SortedUnique(leq, Sort(leq, xs), Sort(leq, ys));
    if Sorted(leq, ys) {
      SortedUnique(leq, Sort(leq, xs), ys);
    }
  }

  predicate Distinct<T(==)>(xs: seq<T>) {
    forall i, j | 0 <= i < j < |xs| :: xs[i] != xs[j]
  }

  lemma {:induction false} DistinctCardinality<T>(xs: seq<T>)
    requires Distinct(xs)
    ensures |set x | x in xs| == |xs|
  {
    if xs != [] {
      var before, last := xs[..|xs| - 1], xs[|xs| - 1];
      DistinctCardinality(before);
      assert xs == before + [last];
      assert (set x | x in xs) == (set x | x in before) + {last};
      assert last !in before;
    }
  }

  lemma DistinctIsPermutationInvariant<T>(xs: seq<T>, ys: seq<T>)
    requires multiset(xs) == multiset(ys) && Distinct(xs)
    ensures Distinct(ys)
  {
    forall i, j | 0 <= i < j < |ys| ensures ys[i] != ys[j] {
      if ys[i] == ys[j] {
        var y := ys[i];
        assert ys == ys[..i] + [y] + ys[i + 1..j] + [y] + ys[j + 1..];
        assert multiset(ys)[y] >= 2;
        DistinctCount(xs, y);
      }
    }
  }

  lemma {:induction false} DistinctCount<T>(xs: seq<T>, x: T)
    requires Distinct(xs)
    ensures multiset(xs)[x] <= 1
  {
    if xs != [] {
      assert xs == [xs[0]] + xs[1..];
      DistinctCount(xs[1..], x);
      if x == xs[0] {
        assert x !in xs[1..];
        assert x !in multiset(xs[1..]);
      }
    }
  }

  function Map<T, U>(f: T -> U, xs: seq<T>): (ys: seq<U>)
    ensures |ys| == |xs|
    ensures forall i | 0 <= i < |xs| :: ys[i] == f(xs[i])
  {
    seq(|xs|, i requires 0 <= i < |xs| => f(xs[i]))
  }

  lemma MapMembers<T, U(!new)>(f: T -> U, xs: seq<T>)
    ensures forall y | y in Map(f, xs) :: exists x :: x in xs && f(x) == y
  {
    forall y | y in Map(f, xs) ensures exists x :: x in xs && f(x) == y {
      var i :| 0 <= i < |xs| && Map(f, xs)[i] == y;
      assert xs[i] in xs;
    }
  }

  lemma MapAppend<T, U>(f: T -> U, xs: seq<T>, x: T)
    ensures Map(f, xs + [x]) == Map(f, xs) + [f(x)]
  {
  }

  lemma MapWithout<T, U>(f: T -> U, xs: seq<T>, k: nat)
    requires k < |xs|
    ensures multiset(Map(f, xs)) == multiset(Map(f, Without(xs, k))) + multiset{f(xs[k])}
  {
    assert Map(f, Without(xs, k)) == Without(Map(f, xs), k);
    WithoutPermutes(Map(f, xs), k);
  }

  lemma {:induction false} MapPermutes<T, U>(f: T -> U, xs: seq<T>, ys: seq<T>)
    requires multiset(xs) == multiset(ys)
    ensures multiset(Map(f, xs)) == multiset(Map(f, ys))
  {
    SameMembers(xs, ys);
    if xs != [] {
      assert xs[0] in ys;
      var k :| 0 <= k < |ys| && ys[k] == xs[0];
      WithoutSame(xs, ys, 0, k);
      assert Without(xs, 0) == xs[1..];
      MapPermutes(f, xs[1..], Without(ys, k));
      MapWithout(f, xs, 0);
      MapWithout(f, ys, k);
    }
  }
}
