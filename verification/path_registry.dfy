/** The registry that refuses duplicate paths and prefixes that differ only in ASCII case. */
module PathRegistries {
  import opened Framing
  import opened Ordering
  import opened Content

  /** A slash-delimited prefix: cut before some slash, or the whole path. */
  predicate CutsAt(path: Bytes, end: nat) {
    end == |path| || (end < |path| && path[end] == SLASH)
  }

  ghost predicate IsPrefix(prefix: Bytes, path: Bytes) {
    prefix <= path && CutsAt(path, |prefix|)
  }

  /** No prefix of `left` differs from a prefix of `right` by case alone. */
  ghost predicate Agree(left: Bytes, right: Bytes) {
    forall p, q | IsPrefix(p, left) && IsPrefix(q, right) && Lowercase(p) == Lowercase(q) :: p == q
  }

  /** The order-free condition: distinct paths whose prefixes never differ by case alone. */
  ghost predicate Compatible(paths: seq<Bytes>) {
    Distinct(paths) && forall left, right | left in paths && right in paths :: Agree(left, right)
  }

  datatype Registry = Registry(exact: set<Bytes>, folded: map<Bytes, Bytes>)

  const EMPTY := Registry({}, map[])

  /** Registers the prefixes of `path` that end at `end` or later. */
  function RegisterPrefixes(folded: map<Bytes, Bytes>, path: Bytes, end: nat): Result<map<Bytes, Bytes>>
    requires end <= |path| + 1
    decreases |path| + 1 - end
  {
    if end > |path| then Ok(folded)
    else if !CutsAt(path, end) then RegisterPrefixes(folded, path, end + 1)
    else
      var prefix := path[..end];
      var key := Lowercase(prefix);
      if key in folded && folded[key] != prefix then Err(InvalidArchive)
      else RegisterPrefixes(folded[key := prefix], path, end + 1)
  }

  function Register(registry: Registry, path: Bytes): Result<Registry> {
    if path in registry.exact then Err(InvalidArchive)
    else
      var folded :- RegisterPrefixes(registry.folded, path, 0);
      Ok(Registry(registry.exact + {path}, folded))
  }

  function RegisterAll(registry: Registry, paths: seq<Bytes>): Result<Registry>
    decreases |paths|
  {
    if paths == [] then Ok(registry)
    else
      var next :- Register(registry, paths[0]);
      RegisterAll(next, paths[1..])
  }

  ghost predicate Holds(folded: map<Bytes, Bytes>, prefix: Bytes) {
    Lowercase(prefix) in folded && folded[Lowercase(prefix)] == prefix
  }

  /** Every entry is a prefix of one of `paths`, or a prefix of `path` shorter than `end`. */
  ghost predicate EntriesFrom(folded: map<Bytes, Bytes>, paths: seq<Bytes>, path: Bytes, end: nat) {
    forall key | key in folded ::
      && Lowercase(folded[key]) == key
      && ((exists known :: known in paths && IsPrefix(folded[key], known))
          || (|folded[key]| < end && IsPrefix(folded[key], path)))
  }

  ghost predicate HoldsAll(folded: map<Bytes, Bytes>, paths: seq<Bytes>) {
    forall known, p | known in paths && IsPrefix(p, known) :: Holds(folded, p)
  }

  ghost predicate HoldsBelow(folded: map<Bytes, Bytes>, path: Bytes, end: nat) {
    forall p | IsPrefix(p, path) && |p| < end :: Holds(folded, p)
  }

  ghost predicate HoldsPrefixes(folded: map<Bytes, Bytes>, paths: seq<Bytes>, path: Bytes, end: nat) {
    EntriesFrom(folded, paths, path, end) && HoldsAll(folded, paths) && HoldsBelow(folded, path, end)
  }

  ghost predicate Describes(registry: Registry, paths: seq<Bytes>) {
    && (forall path :: path in registry.exact <==> path in paths)
    && HoldsPrefixes(registry.folded, paths, [], 0)
  }

  /** Adding one prefix keeps what the map already holds. */
  lemma AddPrefix(folded: map<Bytes, Bytes>, paths: seq<Bytes>, path: Bytes, end: nat)
    requires end <= |path| && CutsAt(path, end)
    requires HoldsPrefixes(folded, paths, path, end)
    requires Lowercase(path[..end]) in folded ==> Holds(folded, path[..end])
    ensures HoldsPrefixes(folded[Lowercase(path[..end]) := path[..end]], paths, path, end + 1)
  {
    var prefix := path[..end];
    var next := folded[Lowercase(prefix) := prefix];
    assert forall p | Holds(folded, p) :: Holds(next, p);
    forall p | IsPrefix(p, path) && |p| < end + 1 ensures Holds(next, p) {
      if |p| == end {
        assert p == prefix;
      }
    }
    forall key | key in next
      ensures Lowercase(next[key]) == key
      ensures (exists known :: known in paths && IsPrefix(next[key], known))
              || (|next[key]| < end + 1 && IsPrefix(next[key], path))
    {
      if key != Lowercase(prefix) {
        assert next[key] == folded[key];
      }
    }
  }

  lemma SkipEnd(folded: map<Bytes, Bytes>, paths: seq<Bytes>, path: Bytes, end: nat)
    requires end <= |path| && !CutsAt(path, end)
    requires HoldsPrefixes(folded, paths, path, end)
    ensures HoldsPrefixes(folded, paths, path, end + 1)
  {
    forall p | IsPrefix(p, path) && |p| < end + 1 ensures Holds(folded, p) {
      assert |p| != end;
    }
  }

  ghost predicate Clashes(paths: seq<Bytes>, path: Bytes) {
    exists known :: known in paths && !Agree(known, path)
  }

  lemma ConflictClashes(folded: map<Bytes, Bytes>, paths: seq<Bytes>, path: Bytes, end: nat)
    requires end <= |path| && CutsAt(path, end)
    requires HoldsPrefixes(folded, paths, path, end)
    requires Lowercase(path[..end]) in folded && !Holds(folded, path[..end])
    ensures Clashes(paths, path)
  {
    var prefix := path[..end];
    var stored := folded[Lowercase(prefix)];
    assert IsPrefix(prefix, path);
    assert |stored| == |Lowercase(stored)| == end;
    var known :| known in paths && IsPrefix(stored, known);
    assert !Agree(known, path);
  }

  lemma {:induction false} RegisterPrefixesSpec(folded: map<Bytes, Bytes>, paths: seq<Bytes>, path: Bytes, end: nat)
    requires end <= |path| + 1
    requires HoldsPrefixes(folded, paths, path, end)
    ensures RegisterPrefixes(folded, path, end).Ok? ==>
              HoldsPrefixes(RegisterPrefixes(folded, path, end).value, paths, path, |path| + 1)
    ensures RegisterPrefixes(folded, path, end).Err? ==> Clashes(paths, path)
    decreases |path| + 1 - end
  {
    if end <= |path| {
      var prefix := path[..end];
      if !CutsAt(path, end) {
        SkipEnd(folded, paths, path, end);
        RegisterPrefixesSpec(folded, paths, path, end + 1);
      } else if Lowercase(prefix) in folded && folded[Lowercase(prefix)] != prefix {
        ConflictClashes(folded, paths, path, end);
      } else {
        AddPrefix(folded, paths, path, end);
        RegisterPrefixesSpec(folded[Lowercase(prefix) := prefix], paths, path, end + 1);
      }
    }
  }

  /** A map that holds every prefix of two paths shows that they agree. */
  lemma HeldPathsAgree(folded: map<Bytes, Bytes>, paths: seq<Bytes>, path: Bytes)
    requires HoldsPrefixes(folded, paths, path, |path| + 1)
    ensures forall known | known in paths :: Agree(known, path)
  {
    forall known | known in paths ensures Agree(known, path) {
      forall p, q | IsPrefix(p, known) && IsPrefix(q, path) && Lowercase(p) == Lowercase(q) ensures p == q {
        assert Holds(folded, p) && Holds(folded, q);
      }
    }
  }

  lemma RegisterSpec(registry: Registry, paths: seq<Bytes>, path: Bytes)
    requires Describes(registry, paths)
    ensures Register(registry, path).Ok? <==> path !in paths && forall known | known in paths :: Agree(known, path)
    ensures Register(registry, path).Ok? ==> Describes(Register(registry, path).value, paths + [path])
  {
    if path !in paths {
      assert HoldsPrefixes(registry.folded, paths, path, 0);
      RegisterPrefixesSpec(registry.folded, paths, path, 0);
      if Register(registry, path).Ok? {
        var folded := RegisterPrefixes(registry.folded, path, 0).value;
        HeldPathsAgree(folded, paths, path);
        var all := paths + [path];
        assert path in all;
        assert forall known :: known in all <==> known in paths || known == path;
        assert HoldsPrefixes(folded, all, [], 0);
      }
    }
  }

  lemma SelfAgrees(path: Bytes)
    ensures Agree(path, path)
  {
  }

  lemma {:induction false} RegisterAllSpec(registry: Registry, before: seq<Bytes>, paths: seq<Bytes>)
    requires Describes(registry, before) && Compatible(before)
    ensures RegisterAll(registry, paths).Ok? <==> Compatible(before + paths)
    ensures RegisterAll(registry, paths).Ok? ==> Describes(RegisterAll(registry, paths).value, before + paths)
    decreases |paths|
  {
    if paths == [] {
      assert before + paths == before;
    } else {
      RegisterSpec(registry, before, paths[0]);
      var more := before + [paths[0]];
      assert more + paths[1..] == before + paths;
      CompatibleExtend(before, paths[0]);
      if Compatible(more) {
        RegisterAllSpec(Register(registry, paths[0]).value, more, paths[1..]);
      } else if Compatible(before + paths) {
        CompatiblePrefix(more, paths[1..]);
      }
    }
  }

  lemma CompatibleExtend(before: seq<Bytes>, path: Bytes)
    requires Compatible(before)
    ensures Compatible(before + [path]) <==> path !in before && forall known | known in before :: Agree(known, path)
  {
    var more := before + [path];
    SelfAgrees(path);
    assert more[|before|] == path;
    assert forall known :: known in more <==> known in before || known == path;
    if path !in before && forall known | known in before :: Agree(known, path) {
      forall i, j | 0 <= i < j < |more| ensures more[i] != more[j] {
        if j == |before| {
          assert more[i] in before;
        } else {
          assert before[i] != before[j];
        }
      }
      forall left, right | left in more && right in more ensures Agree(left, right) {
        if right != path && left == path {
          assert Agree(right, left);
        }
      }
    } else if path in before {
      var i :| 0 <= i < |before| && before[i] == path;
      assert more[i] == more[|before|];
    }
  }

  lemma CompatiblePrefix(before: seq<Bytes>, after: seq<Bytes>)
    requires Compatible(before + after)
    ensures Compatible(before)
  {
    var all := before + after;
    forall i, j | 0 <= i < j < |before| ensures before[i] != before[j] {
      assert all[i] != all[j];
    }
    assert forall path | path in before :: path in all;
  }

  /** A whole sequence is accepted exactly when it is compatible. */
  lemma AcceptsExactlyCompatible(paths: seq<Bytes>)
    ensures RegisterAll(EMPTY, paths).Ok? <==> Compatible(paths)
    ensures RegisterAll(EMPTY, paths).Err? ==> RegisterAll(EMPTY, paths).error == InvalidArchive
  {
    RegisterAllSpec(EMPTY, [], paths);
    assert [] + paths == paths;
    OnlyInvalidArchive(EMPTY, paths);
  }

  lemma {:induction false} OnlyInvalidArchive(registry: Registry, paths: seq<Bytes>)
    ensures RegisterAll(registry, paths).Err? ==> RegisterAll(registry, paths).error == InvalidArchive
    decreases |paths|
  {
    if paths != [] {
      PrefixesOnlyInvalidArchive(registry.folded, paths[0], 0);
      if Register(registry, paths[0]).Ok? {
        OnlyInvalidArchive(Register(registry, paths[0]).value, paths[1..]);
      }
    }
  }

  lemma {:induction false} PrefixesOnlyInvalidArchive(folded: map<Bytes, Bytes>, path: Bytes, end: nat)
    requires end <= |path| + 1
    ensures RegisterPrefixes(folded, path, end).Err? ==> RegisterPrefixes(folded, path, end).error == InvalidArchive
    decreases |path| + 1 - end
  {
    if end <= |path| {
      var key := Lowercase(path[..end]);
      PrefixesOnlyInvalidArchive(folded, path, end + 1);
      PrefixesOnlyInvalidArchive(folded[key := path[..end]], path, end + 1);
    }
  }

  lemma CompatibleIsOrderFree(paths: seq<Bytes>, reordered: seq<Bytes>)
    requires multiset(paths) == multiset(reordered)
    ensures Compatible(paths) <==> Compatible(reordered)
  {
    SameMembers(paths, reordered);
    if Distinct(paths) {
      DistinctIsPermutationInvariant(paths, reordered);
    }
    if Distinct(reordered) {
      DistinctIsPermutationInvariant(reordered, paths);
    }
  }

  /** Registration order never changes the outcome. */
  lemma AcceptanceIsOrderFree(paths: seq<Bytes>, reordered: seq<Bytes>)
    requires multiset(paths) == multiset(reordered)
    ensures RegisterAll(EMPTY, paths).Ok? <==> RegisterAll(EMPTY, reordered).Ok?
    ensures RegisterAll(EMPTY, paths).Err? ==> RegisterAll(EMPTY, paths) == RegisterAll(EMPTY, reordered)
  {
    AcceptsExactlyCompatible(paths);
    AcceptsExactlyCompatible(reordered);
    CompatibleIsOrderFree(paths, reordered);
  }

  class PathRegistry {
    var exact: set<Bytes>
    var folded: map<Bytes, Bytes>

    function Model(): Registry
      reads this
    {
      Registry(exact, folded)
    }

    constructor ()
      ensures Model() == EMPTY
    {
      exact, folded := {}, map[];
    }

    /** Registers a path, or leaves a registry that its caller discards with the failed operation. */
    method RegisterPath(path: Bytes) returns (outcome: Outcome)
      modifies this
      ensures outcome.Pass? <==> Register(old(Model()), path).Ok?
      ensures outcome.Pass? ==> Ok(Model()) == Register(old(Model()), path)
      ensures outcome.Fail? ==> Register(old(Model()), path) == Err(outcome.error)
      ensures exact == old(exact) + {path}
    {
      var fresh_ := path !in exact;
      exact := exact + {path};
      if !fresh_ {
        return Fail(InvalidArchive);
      }
      var end := 0;
      while end <= |path|
        invariant end <= |path| + 1
        invariant exact == old(exact) + {path}
        invariant RegisterPrefixes(folded, path, end) == RegisterPrefixes(old(folded), path, 0)
      {
        if CutsAt(path, end) {
          var prefix := path[..end];
          var key := Lowercase(prefix);
          if key in folded && folded[key] != prefix {
            return Fail(InvalidArchive);
          }
          if key !in folded {
            folded := folded[key := prefix];
          } else {
            assert folded == folded[key := prefix];
          }
        }
        end := end + 1;
      }
      return Pass;
    }
  }
}
