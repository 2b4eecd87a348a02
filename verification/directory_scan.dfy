/** Scanning a directory of files against a capacity, whatever order it lists its entries in. */
module DirectoryScans {
  import opened Framing
  import opened Ordering
  import opened Content

  type Files = map<Bytes, Bytes>

  datatype Capacity = Capacity(entries: u64, bytes: u64)

  datatype Inventory = Inventory(candidates: seq<Bytes>, entries: nat, bytes: nat)

  // Bytes on disk.

  ghost function TotalBytes(files: Files): nat {
    if files == map[] then 0
    else
      var name :| name in files;
      |files[name]| + TotalBytes(files - {name})
  }

  lemma {:induction false} TotalWithout(files: Files, name: Bytes)
    requires name in files
    ensures TotalBytes(files) == |files[name]| + TotalBytes(files - {name})
    decreases |files|
  {
    var picked :| picked in files && TotalBytes(files) == |files[picked]| + TotalBytes(files - {picked});
    if picked != name {
      assert |files - {picked}| < |files| && |files - {name}| < |files| by {
        assert (files - {picked}).Keys == files.Keys - {picked};
        assert (files - {name}).Keys == files.Keys - {name};
      }
      TotalWithout(files - {picked}, name);
      TotalWithout(files - {name}, picked);
      assert files - {picked} - {name} == files - {name} - {picked};
    }
  }

  lemma TotalWith(files: Files, name: Bytes, bytes: Bytes)
    ensures TotalBytes(files[name := bytes]) == |bytes| + TotalBytes(files - {name})
    ensures |files[name := bytes]| == 1 + |files - {name}|
  {
    var grown := files[name := bytes];
    TotalWithout(grown, name);
    assert grown - {name} == files - {name};
    assert grown.Keys == (files - {name}).Keys + {name};
  }

  lemma CountWithout(files: Files, name: Bytes)
    ensures name in files ==> |files - {name}| == |files| - 1
    ensures name !in files ==> files - {name} == files
  {
    if name in files {
      assert files.Keys == (files - {name}).Keys + {name};
    }
  }

  lemma {:induction false} SubmapTotal(part: Files, files: Files)
    requires part.Keys <= files.Keys && forall name | name in part :: part[name] == files[name]
    ensures TotalBytes(part) <= TotalBytes(files) && |part| <= |files|
    decreases |part|
  {
    if part == map[] {
      assert TotalBytes(part) == 0 && |part| == 0;
    } else {
      var name :| name in part;
      TotalWithout(part, name);
      TotalWithout(files, name);
      CountWithout(part, name);
      CountWithout(files, name);
      SubmapTotal(part - {name}, files - {name});
    }
  }

  // The scan.

  ghost predicate Lists(staging: Bytes -> bool, candidates: seq<Bytes>, seen: Files) {
    Distinct(candidates) && forall name :: name in candidates <==> name in seen && !staging(name)
  }

  /** The names of a directory that are not staging files, in name order. */
  ghost predicate ListsCandidates(staging: Bytes -> bool, candidates: seq<Bytes>, files: Files) {
    Sorted(LexLeq, candidates) && Lists(staging, candidates, files)
  }

  /** The part of a directory scanned so far. */
  ghost predicate Took(staging: Bytes -> bool, candidate: Bytes -> bool, capacity: Capacity,
                       files: Files, seen: Files, taken: Inventory) {
    && (forall name | name in seen :: name in files && seen[name] == files[name] && (staging(name) || candidate(name)))
    && taken.entries == |seen| <= capacity.entries && taken.bytes == TotalBytes(seen) <= capacity.bytes
    && Lists(staging, taken.candidates, seen)
  }

  lemma ListStep(staging: Bytes -> bool, seen: Files, candidates: seq<Bytes>, name: Bytes, bytes: Bytes)
    requires Lists(staging, candidates, seen) && name !in seen
    ensures Lists(staging, if staging(name) then candidates else candidates + [name], seen[name := bytes])
  {
    var listed := candidates + [name];
    assert name !in candidates;
    assert forall other :: other in listed <==> other in candidates || other == name;
  }

  /** The checks one directory entry has to pass, and the inventory behind it. */
  function ScanEntry(staging: Bytes -> bool, candidate: Bytes -> bool, capacity: Capacity,
                     taken: Inventory, name: Bytes, length: nat): Result<Inventory> {
    if taken.entries + 1 > capacity.entries then Err(CapacityExceeded)
    else if taken.bytes + length > capacity.bytes then Err(CapacityExceeded)
    else if staging(name) then Ok(Inventory(taken.candidates, taken.entries + 1, taken.bytes + length))
    else if !candidate(name) then Err(UnexpectedEntry)
    else Ok(Inventory(taken.candidates + [name], taken.entries + 1, taken.bytes + length))
  }

  ghost predicate Admissible(staging: Bytes -> bool, candidate: Bytes -> bool, capacity: Capacity, files: Files) {
    && (forall name | name in files :: staging(name) || candidate(name))
    && |files| <= capacity.entries && TotalBytes(files) <= capacity.bytes
  }

  lemma GrowBounds(files: Files, seen: Files, name: Bytes)
    requires forall known | known in seen :: known in files && seen[known] == files[known]
    requires name in files && name !in seen
    ensures |seen[name := files[name]]| == |seen| + 1 <= |files|
    ensures TotalBytes(seen[name := files[name]]) == TotalBytes(seen) + |files[name]| <= TotalBytes(files)
  {
    TotalWith(seen, name, files[name]);
    CountWithout(seen, name);
    SubmapTotal(seen[name := files[name]], files);
  }

  lemma ScanEntrySpec(staging: Bytes -> bool, candidate: Bytes -> bool, capacity: Capacity,
                      files: Files, seen: Files, taken: Inventory, name: Bytes)
    requires Took(staging, candidate, capacity, files, seen, taken) && name in files && name !in seen
    ensures var r := ScanEntry(staging, candidate, capacity, taken, name, |files[name]|);
            && (r.Ok? ==> Took(staging, candidate, capacity, files, seen[name := files[name]], r.value))
            && (r.Err? ==> !Admissible(staging, candidate, capacity, files))
  {
    GrowBounds(files, seen, name);
    var r := ScanEntry(staging, candidate, capacity, taken, name, |files[name]|);
    if r.Ok? {
      TookOneMore(staging, candidate, capacity, files, seen, taken, name);
    }
  }

  /** An entry that fits and has a known name is taken. */
  lemma TookOneMore(staging: Bytes -> bool, candidate: Bytes -> bool, capacity: Capacity,
                    files: Files, seen: Files, taken: Inventory, name: Bytes)
    requires Took(staging, candidate, capacity, files, seen, taken) && name in files && name !in seen
    requires taken.entries + 1 <= capacity.entries && taken.bytes + |files[name]| <= capacity.bytes
    requires staging(name) || candidate(name)
    ensures var listed := if staging(name) then taken.candidates else taken.candidates + [name];
            Took(staging, candidate, capacity, files, seen[name := files[name]],
                 Inventory(listed, taken.entries + 1, taken.bytes + |files[name]|))
  {
    GrowBounds(files, seen, name);
    ListStep(staging, seen, taken.candidates, name, files[name]);
  }

  lemma TookNothing(staging: Bytes -> bool, candidate: Bytes -> bool, capacity: Capacity, files: Files)
    ensures Took(staging, candidate, capacity, files, map[], Inventory([], 0, 0))
  {
    var empty: Files := map[];
    assert TotalBytes(empty) == 0 && |empty| == 0;
  }

  ghost predicate Scanning(staging: Bytes -> bool, candidate: Bytes -> bool, capacity: Capacity,
                           files: Files, left: set<Bytes>, seen: Files, taken: Inventory) {
    left <= files.Keys && seen.Keys == files.Keys - left && Took(staging, candidate, capacity, files, seen, taken)
  }

  lemma ScanStep(staging: Bytes -> bool, candidate: Bytes -> bool, capacity: Capacity,
                 files: Files, left: set<Bytes>, seen: Files, taken: Inventory, name: Bytes)
    requires Scanning(staging, candidate, capacity, files, left, seen, taken) && name in left
    ensures var r := ScanEntry(staging, candidate, capacity, taken, name, |files[name]|);
            && (r.Ok? ==>
                  Scanning(staging, candidate, capacity, files, left - {name}, seen[name := files[name]], r.value))
            && (r.Err? ==> !Admissible(staging, candidate, capacity, files))
  {
    ScanEntrySpec(staging, candidate, capacity, files, seen, taken, name);
    SeenStep(seen, files.Keys, left, name, files[name]);
  }

  lemma SeenStep(seen: Files, all: set<Bytes>, left: set<Bytes>, name: Bytes, bytes: Bytes)
    requires left <= all && seen.Keys == all - left && name in left
    ensures seen[name := bytes].Keys == all - (left - {name}) && left - {name} <= all
  {
  }

  lemma ScannedAll(staging: Bytes -> bool, candidate: Bytes -> bool, capacity: Capacity,
                   files: Files, seen: Files, taken: Inventory)
    requires Scanning(staging, candidate, capacity, files, {}, seen, taken)
    ensures Took(staging, candidate, capacity, files, files, taken)
  {
    assert seen == files;
  }

  /** Takes the entries in any order; stops at the first one that does not pass. */
  method ScanEntries(staging: Bytes -> bool, candidate: Bytes -> bool, capacity: Capacity, files: Files)
    returns (r: Result<Inventory>)
    ensures r.Ok? ==> Took(staging, candidate, capacity, files, files, r.value)
    ensures r.Err? ==> !Admissible(staging, candidate, capacity, files)
  {
    var left, taken := files.Keys, Inventory([], 0, 0);
    ghost var seen: Files := map[];
    TookNothing(staging, candidate, capacity, files);
    while left != {}
      invariant Scanning(staging, candidate, capacity, files, left, seen, taken)
      decreases left
    {
      var name :| name in left;
      ScanStep(staging, candidate, capacity, files, left, seen, taken, name);
      r := ScanEntry(staging, candidate, capacity, taken, name, |files[name]|);
      if r.Err? {
        return;
      }
      taken, seen, left := r.value, seen[name := files[name]], left - {name};
    }
    ScannedAll(staging, candidate, capacity, files, seen, taken);
    r := Ok(taken);
  }

  /** Counts entries and bytes and lists the candidates; fails on an entry that is neither a
      staging file nor a candidate, and on a directory over capacity. */
  method ScanDirectory(staging: Bytes -> bool, candidate: Bytes -> bool, capacity: Capacity, files: Files)
    returns (r: Result<Inventory>)
    ensures r.Ok? <==> Admissible(staging, candidate, capacity, files)
    ensures r.Ok? ==> r.value.entries == |files| && r.value.bytes == TotalBytes(files)
    ensures r.Ok? ==> ListsCandidates(staging, r.value.candidates, files)
  {
    r := ScanEntries(staging, candidate, capacity, files);
    if r.Ok? {
      r := Ok(r.value.(candidates := SortNames(staging, r.value.candidates, files)));
    }
  }

  function SortNames(staging: Bytes -> bool, names: seq<Bytes>, ghost files: Files): (sorted: seq<Bytes>)
    requires Lists(staging, names, files)
    ensures ListsCandidates(staging, sorted, files)
  {
    SortPermutes(LexLeq, names);
    LexIsTotalOrder();
    SortSorts(LexLeq, names);
    DistinctIsPermutationInvariant(names, Sort(LexLeq, names));
    Sort(LexLeq, names)
  }
}
