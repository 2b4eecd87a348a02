/** Sorting by a key and refusing a key that occurs twice: how every identity makes a collection
    forget its order. */
module KeyedSorts {
  import opened Framing
  import opened Ordering
  import opened Content

  datatype Keyed<+T> = Unique(items: seq<T>) | Duplicate(key: Bytes)

  function ByKey<T>(key: T -> Bytes): (T, T) -> bool {
    (x, y) => LexLeq(key(x), key(y))
  }

  /** The first key that two neighbours share. */
  function FirstRepeat<T>(key: T -> Bytes, xs: seq<T>): Option<Bytes> {
    if |xs| < 2 then None
    else if key(xs[0]) == key(xs[1]) then Some(key(xs[0]))
    else FirstRepeat(key, xs[1..])
  }

  function SortUnique<T>(key: T -> Bytes, xs: seq<T>): Keyed<T> {
    var sorted := Sort(ByKey(key), xs);
    if FirstRepeat(key, sorted).Some? then Duplicate(FirstRepeat(key, sorted).value) else Unique(sorted)
  }

  predicate DistinctKeys<T>(key: T -> Bytes, xs: seq<T>) {
    Distinct(Map(key, xs))
  }

  ghost predicate Repeats<T>(key: T -> Bytes, xs: seq<T>, k: Bytes) {
    multiset(Map(key, xs))[k] >= 2
  }

  lemma ByKeyIsTotal<T(!new)>(key: T -> Bytes)
    ensures TotalPreorder(ByKey(key))
  {
    LexIsTotalOrder();
  }

  /** Sorts a copy, then scans neighbours for an equal pair. */
  method SortedWithoutRepeats<T>(key: T -> Bytes, xs: seq<T>) returns (r: Keyed<T>)
    ensures r == SortUnique(key, xs)
  {
    var sorted := Sort(ByKey(key), xs);
    var i := 0;
    while i + 1 < |sorted|
      invariant 0 <= i <= |sorted|
      invariant FirstRepeat(key, sorted[i..]) == FirstRepeat(key, sorted)
    {
      var rest := sorted[i..];
      assert rest[0] == sorted[i] && rest[1] == sorted[i + 1] && rest[1..] == sorted[i + 1..];
      if key(sorted[i]) == key(sorted[i + 1]) {
        return Duplicate(key(sorted[i]));
      }
      i := i + 1;
    }
    return Unique(sorted);
  }

  lemma AtLeastTwo<T>(xs: seq<T>, i: nat, j: nat)
    requires i < j < |xs| && xs[i] == xs[j]
    ensures multiset(xs)[xs[i]] >= 2
  {
    assert xs == xs[..i] + [xs[i]] + xs[i + 1..j] + [xs[j]] + xs[j + 1..];
  }

  lemma NotDistinct<T>(xs: seq<T>) returns (i: nat, j: nat)
    requires !Distinct(xs)
    ensures i < j < |xs| && xs[i] == xs[j]
  {
    i, j :| 0 <= i < j < |xs| && xs[i] == xs[j];
  }

  /** Two equal keys in a sorted sequence: everything between them has that key too. */
  lemma Squeezed<T(!new)>(key: T -> Bytes, xs: seq<T>, i: nat, j: nat)
    requires Sorted(ByKey(key), xs) && i < j < |xs| && key(xs[i]) == key(xs[j])
    ensures key(xs[i + 1]) == key(xs[i])
  {
    LexIsTotalOrder();
    if i + 1 < j {
      assert ByKey(key)(xs[i], xs[i + 1]) && ByKey(key)(xs[i + 1], xs[j]);
      LexAntisymmetric(key(xs[i]), key(xs[i + 1]));
    }
  }

  lemma {:induction false} NoRepeat<T(!new)>(key: T -> Bytes, xs: seq<T>)
    requires Sorted(ByKey(key), xs)
    ensures FirstRepeat(key, xs).None? <==> DistinctKeys(key, xs)
  {
    if |xs| >= 2 {
      NoRepeat(key, xs[1..]);
      assert Map(key, xs)[1..] == Map(key, xs[1..]);
      if FirstRepeat(key, xs).None? && !DistinctKeys(key, xs) {
        var i, j := NotDistinct(Map(key, xs));
        if i == 0 {
          Squeezed(key, xs, i, j);
        }
      }
      if DistinctKeys(key, xs) {
        assert Map(key, xs)[0] != Map(key, xs)[1];
        forall i, j | 0 <= i < j < |xs| - 1 ensures Map(key, xs[1..])[i] != Map(key, xs[1..])[j] {
          assert Map(key, xs)[i + 1] != Map(key, xs)[j + 1];
        }
      }
    }
  }

  lemma RepeatedTwice<T>(xs: seq<T>, x: T)
    requires multiset(xs)[x] >= 2
    ensures exists i, j :: 0 <= i < j < |xs| && xs[i] == x && xs[j] == x
  {
    assert x in xs;
    var i :| 0 <= i < |xs| && xs[i] == x;
    WithoutPermutes(xs, i);
    assert x in multiset(Without(xs, i));
    assert x in Without(xs, i);
    var j :| 0 <= j < |xs| - 1 && Without(xs, i)[j] == x;
    var k := if j < i then j else j + 1;
    assert xs[k] == x;
    if i < k {
      assert 0 <= i < k < |xs| && xs[i] == x && xs[k] == x;
    } else {
      assert 0 <= k < i < |xs| && xs[k] == x && xs[i] == x;
    }
  }

  lemma {:induction false} FirstRepeatIsLeast<T(!new)>(key: T -> Bytes, xs: seq<T>)
    requires Sorted(ByKey(key), xs) && FirstRepeat(key, xs).Some?
    ensures Repeats(key, xs, FirstRepeat(key, xs).value)
    ensures forall k | Repeats(key, xs, k) :: LexLeq(FirstRepeat(key, xs).value, k)
  {
    if key(xs[0]) == key(xs[1]) {
      AtLeastTwo(Map(key, xs), 0, 1);
      forall k | Repeats(key, xs, k) ensures LexLeq(key(xs[0]), k) {
        var i, j := RepeatedAt(key, xs, k);
        assert ByKey(key)(xs[0], xs[j]);
      }
    } else {
      FirstRepeatIsLeast(key, xs[1..]);
      RepeatsBehindFirst(key, xs);
    }
  }

  lemma RepeatedAt<T>(key: T -> Bytes, xs: seq<T>, k: Bytes) returns (i: nat, j: nat)
    requires Repeats(key, xs, k)
    ensures i < j < |xs| && key(xs[i]) == key(xs[j]) == k
  {
    var keys := Map(key, xs);
    RepeatedTwice(keys, k);
    i, j :| 0 <= i < j < |keys| && keys[i] == k && keys[j] == k;
  }

  lemma RepeatsBehindFirst<T(!new)>(key: T -> Bytes, xs: seq<T>)
    requires Sorted(ByKey(key), xs) && |xs| >= 2 && key(xs[0]) != key(xs[1])
    ensures forall k :: Repeats(key, xs, k) <==> Repeats(key, xs[1..], k)
  {
    assert Map(key, xs) == [key(xs[0])] + Map(key, xs[1..]);
    if Repeats(key, xs, key(xs[0])) {
      var i, j := RepeatedAt(key, xs, key(xs[0]));
      Squeezed(key, xs, 0, j);
    }
  }

  /** What the sort and the scan amount to: all members in key order when the keys are distinct,
      otherwise the least repeated key. */
  lemma SortUniqueMeaning<T(!new)>(key: T -> Bytes, xs: seq<T>)
    ensures SortUnique(key, xs).Unique? <==> DistinctKeys(key, xs)
    ensures SortUnique(key, xs).Unique? ==>
              multiset(SortUnique(key, xs).items) == multiset(xs) && Sorted(ByKey(key), SortUnique(key, xs).items)
    ensures SortUnique(key, xs).Duplicate? ==>
              && Repeats(key, xs, SortUnique(key, xs).key)
              && forall k | Repeats(key, xs, k) :: LexLeq(SortUnique(key, xs).key, k)
  {
    var sorted := Sort(ByKey(key), xs);
    ByKeyIsTotal(key);
    SortSorts(ByKey(key), xs);
    SortPermutes(ByKey(key), xs);
    NoRepeat(key, sorted);
    MapPermutes(key, xs, sorted);
    if DistinctKeys(key, sorted) {
      DistinctIsPermutationInvariant(Map(key, sorted), Map(key, xs));
    }
    if DistinctKeys(key, xs) {
      DistinctIsPermutationInvariant(Map(key, xs), Map(key, sorted));
    } else {
      FirstRepeatIsLeast(key, sorted);
    }
  }

  lemma DistinctKeysDiscriminate<T>(key: T -> Bytes, xs: seq<T>)
    requires DistinctKeys(key, xs)
    ensures Discriminates(ByKey(key), xs)
  {
    forall x, y | x in xs && y in xs && ByKey(key)(x, y) && ByKey(key)(y, x) ensures x == y {
      LexAntisymmetric(key(x), key(y));
      var i :| 0 <= i < |xs| && xs[i] == x;
      var j :| 0 <= j < |xs| && xs[j] == y;
      assert Map(key, xs)[i] == Map(key, xs)[j];
    }
  }

  /** Every permutation of the input has the same outcome, the reported key included. */
  lemma SortUniqueForgetsOrder<T(!new)>(key: T -> Bytes, xs: seq<T>, ys: seq<T>)
    requires multiset(xs) == multiset(ys)
    ensures SortUnique(key, xs) == SortUnique(key, ys)
  {
    SortUniqueMeaning(key, xs);
    SortUniqueMeaning(key, ys);
    MapPermutes(key, xs, ys);
    if DistinctKeys(key, xs) {
      DistinctIsPermutationInvariant(Map(key, xs), Map(key, ys));
      DistinctKeysDiscriminate(key, xs);
      ByKeyIsTotal(key);
      SortIsCanonical(ByKey(key), xs, ys);
    } else {
      if DistinctKeys(key, ys) {
        DistinctIsPermutationInvariant(Map(key, ys), Map(key, xs));
      }
      LexAntisymmetric(SortUnique(key, xs).key, SortUnique(key, ys).key);
    }
  }

  /** Accepted collections come out equal exactly when they have the same members. */
  lemma SortUniqueKeepsMembers<T(!new)>(key: T -> Bytes, xs: seq<T>, ys: seq<T>)
    requires SortUnique(key, xs).Unique? && SortUnique(key, ys).Unique?
    ensures SortUnique(key, xs) == SortUnique(key, ys) <==> multiset(xs) == multiset(ys)
  {
    SortUniqueMeaning(key, xs);
    SortUniqueMeaning(key, ys);
    if multiset(xs) == multiset(ys) {
      SortUniqueForgetsOrder(key, xs, ys);
    }
  }

  /** A sorted arrangement of distinct keys is the one that sorting finds. */
  lemma SortedArrangement<T(!new)>(key: T -> Bytes, xs: seq<T>, ys: seq<T>)
    requires DistinctKeys(key, xs) && multiset(xs) == multiset(ys) && Sorted(ByKey(key), ys)
    ensures SortUnique(key, xs) == Unique(ys)
  {
    SortUniqueMeaning(key, xs);
    DistinctKeysDiscriminate(key, xs);
    ByKeyIsTotal(key);
    SortIsCanonical(ByKey(key), xs, ys);
  }

  /** Strictly increasing keys: sorting changes nothing and finds no repeat. */
  lemma IncreasingIsUnique<T(!new)>(key: T -> Bytes, xs: seq<T>)
    requires forall i, j | 0 <= i < j < |xs| :: LexLess(key(xs[i]), key(xs[j]))
    ensures SortUnique(key, xs) == Unique(xs)
  {
    assert DistinctKeys(key, xs);
    SortedArrangement(key, xs, xs);
  }
}
