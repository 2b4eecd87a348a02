/** The candidate store: a directory of immutable archives, grown one candidate at a time.

    A retain writes a staging file, publishes it by an atomic rename that replaces nothing, and
    cleans up.  The process may stop behind any of these steps and leave what is on disk. */
module CandidateStores {
  import opened Framing
  import opened Ordering
  import opened Content
  import opened Transcripts
  import opened TreeDigests
  import opened ArchiveFormat
  import opened TreeValidations
  import opened ArchiveDecoding
  import opened ArchiveReaders
  import opened ArchiveLimits
  import opened CandidateNames
  import opened DirectoryScans
  import opened Runs

  datatype Config = Config(limits: Limits, capacity: Capacity, hash: Hash)

  // The state of a store and its steps.

  datatype Phase =
    | Idle
    | Writing(tree: Tree, staging: Bytes)
    | Written(tree: Tree, staging: Bytes)
    | Published(tree: Tree, staging: Bytes)

  datatype State = State(files: Files, phase: Phase)

  predicate Recognized(name: Bytes) {
    IsStagingName(name) || IsCandidateName(name)
  }

  ghost predicate InventoryAccepts(cfg: Config, files: Files) {
    Admissible(IsStagingName, IsCandidateName, cfg.capacity, files)
  }

  function TreeName(cfg: Config, tree: Tree): Bytes {
    CandidateName(TreeDigest(tree, cfg.hash))
  }

  function TreeArchive(cfg: Config, tree: Tree): Bytes {
    Archive(TreeDigest(tree, cfg.hash), tree)
  }

  /** `load`: the size check, then the decoder, over one file. */
  function Load(cfg: Config, files: Files, digest: Digest): Result<Tree> {
    var name := CandidateName(digest);
    if name !in files || |files[name]| >= U64_RANGE then Err(Io)
    else if !SizeAdmitted(|files[name]|, cfg.limits) then Err(LimitExceeded)
    else Decode(files[name], |files[name]|, digest, cfg.limits, cfg.hash)
  }

  /** Loads the candidate that a file name stands for. */
  function LoadNamed(cfg: Config, files: Files, name: Bytes): Result<Tree> {
    if ParseCandidateName(name).Some? then Load(cfg, files, ParseCandidateName(name).value) else Err(Io)
  }

  /** The `i`-th of these names is the first one that does not load, and this is its error. */
  predicate FailsFirstAt(cfg: Config, files: Files, names: seq<Bytes>, i: int, error: Error) {
    0 <= i < |names| && LoadNamed(cfg, files, names[i]) == Err(error) && LoadsEach(cfg, files, names[..i])
  }

  predicate LoadsEach(cfg: Config, files: Files, names: seq<Bytes>) {
    forall name | name in names :: LoadNamed(cfg, files, name).Ok?
  }

  lemma OneMore(names: seq<Bytes>, i: nat)
    requires i < |names|
    ensures forall name | name in names[..i + 1] :: name in names[..i] || name == names[i]
  {
    assert names[..i + 1] == names[..i] + [names[i]];
  }

  ghost predicate Begins(cfg: Config, s: State, t: State) {
    && s.phase.Idle? && t.phase.Writing?
    && var tree, staging := t.phase.tree, t.phase.staging;
    && ValidateTree(tree, cfg.limits).Pass? && InventoryAccepts(cfg, s.files)
    && TreeName(cfg, tree) !in s.files
    && Fits(cfg.capacity, |s.files|, TotalBytes(s.files), tree)
    && IsStagingName(staging) && staging !in s.files
    && t.files == s.files[staging := []]
  }

  ghost predicate Writes(cfg: Config, s: State, t: State) {
    && s.phase.Writing? && t.phase == s.phase && s.phase.staging in s.files && s.phase.staging in t.files
    && var bytes := t.files[s.phase.staging];
       s.files[s.phase.staging] <= bytes <= TreeArchive(cfg, s.phase.tree)
       && t.files == s.files[s.phase.staging := bytes]
  }

  ghost predicate Finishes(cfg: Config, s: State, t: State) {
    && s.phase.Writing? && t.phase == Written(s.phase.tree, s.phase.staging) && t.files == s.files
    && Writable(s.phase.tree) && EncodedCandidateBytes(s.phase.tree).Ok?
    && s.phase.staging in s.files && s.files[s.phase.staging] == TreeArchive(cfg, s.phase.tree)
    && |s.files[s.phase.staging]| == EncodedCandidateBytes(s.phase.tree).value
  }

  /** The atomic rename; when the target exists, its tree must be the one being retained. */
  ghost predicate Publishes(cfg: Config, s: State, t: State) {
    && s.phase.Written? && t.phase == Published(s.phase.tree, s.phase.staging) && s.phase.staging in s.files
    && var target := TreeName(cfg, s.phase.tree);
       if target in s.files then
         && t.files == s.files
         && Load(cfg, s.files, TreeDigest(s.phase.tree, cfg.hash)).Ok?
         && CanonicallyEqual(Load(cfg, s.files, TreeDigest(s.phase.tree, cfg.hash)).value, s.phase.tree)
       else
         t.files == (s.files - {s.phase.staging})[target := s.files[s.phase.staging]]
  }

  ghost predicate CleansUp(s: State, t: State) {
    s.phase.Published? && t.phase.Idle? && t.files == s.files - {s.phase.staging}
  }

  /** A failed step drops its staging file, or cannot. */
  ghost predicate Fails(s: State, t: State) {
    !s.phase.Idle? && t.phase.Idle? && (t.files == s.files || t.files == s.files - {s.phase.staging})
  }

  /** The process stops anywhere; the disk keeps what it has. */
  ghost predicate Stops(s: State, t: State) {
    t == State(s.files, Idle)
  }

  ghost predicate Next(cfg: Config, s: State, t: State) {
    Begins(cfg, s, t) || Writes(cfg, s, t) || Finishes(cfg, s, t) || Publishes(cfg, s, t) || CleansUp(s, t)
    || Fails(s, t) || Stops(s, t)
  }

  // What every step keeps.

  ghost predicate Sound(cfg: Config, files: Files) {
    && (forall name | name in files :: Recognized(name))
    && (forall digest: Digest | CandidateName(digest) in files ::
          var bytes := files[CandidateName(digest)];
          |bytes| < U64_RANGE && Decode(bytes, |bytes|, digest, cfg.limits, cfg.hash).Ok?)
  }

  ghost predicate WithinCapacity(cfg: Config, files: Files) {
    |files| <= cfg.capacity.entries && TotalBytes(files) <= cfg.capacity.bytes
  }

  /** A retain in flight has reserved room for its whole archive. */
  ghost predicate JobInv(cfg: Config, s: State) {
    match s.phase
    case Idle => true
    case Writing(tree, staging) =>
      && ValidateTree(tree, cfg.limits).Pass? && IsStagingName(staging) && staging in s.files
      && TreeName(cfg, tree) !in s.files
      && |TreeArchive(cfg, tree)| < U64_RANGE
      && s.files[staging] <= TreeArchive(cfg, tree)
      && TotalBytes(s.files - {staging}) + |TreeArchive(cfg, tree)| <= cfg.capacity.bytes
    case Written(tree, staging) =>
      && ValidateTree(tree, cfg.limits).Pass? && Writable(tree) && IsStagingName(staging) && staging in s.files
      && TreeName(cfg, tree) !in s.files
      && |TreeArchive(cfg, tree)| < U64_RANGE
      && s.files[staging] == TreeArchive(cfg, tree)
    case Published(tree, staging) =>
      && IsStagingName(staging) && staging !in s.files
      && Holds(cfg, s.files, tree)
  }

  /** The candidate of `tree` is published and reads back as the canonical tree. */
  ghost predicate Holds(cfg: Config, files: Files, tree: Tree) {
    && TreeName(cfg, tree) in files
    && var bytes := files[TreeName(cfg, tree)];
       |bytes| < U64_RANGE
       && Decode(bytes, |bytes|, TreeDigest(tree, cfg.hash), cfg.limits, cfg.hash) == Ok(Canonical(tree))
  }

  ghost predicate Inv(cfg: Config, s: State) {
    Sound(cfg, s.files) && WithinCapacity(cfg, s.files) && JobInv(cfg, s)
  }

  /** Published candidates stay published with the same bytes. */
  ghost predicate Keeps(before: Files, after: Files) {
    forall digest: Digest | CandidateName(digest) in before ::
      CandidateName(digest) in after && after[CandidateName(digest)] == before[CandidateName(digest)]
  }

  lemma StagingChangesKeepSound(cfg: Config, files: Files, staging: Bytes, bytes: Bytes)
    requires Sound(cfg, files) && IsStagingName(staging)
    ensures Sound(cfg, files[staging := bytes]) && Keeps(files, files[staging := bytes])
    ensures Sound(cfg, files - {staging}) && Keeps(files, files - {staging})
  {
    forall digest: Digest ensures staging != CandidateName(digest) {
      StagingNamesAreNotCandidates(staging, digest);
    }
  }

  lemma RemovalKeepsCapacity(cfg: Config, files: Files, name: Bytes)
    requires WithinCapacity(cfg, files)
    ensures WithinCapacity(cfg, files - {name})
  {
    CountWithout(files, name);
    if name in files {
      TotalWithout(files, name);
    }
  }

  lemma StagingKeepsCapacity(cfg: Config, files: Files, staging: Bytes, bytes: Bytes)
    requires |files - {staging}| + 1 <= cfg.capacity.entries
    requires TotalBytes(files - {staging}) + |bytes| <= cfg.capacity.bytes
    ensures WithinCapacity(cfg, files[staging := bytes])
    ensures files[staging := bytes] - {staging} == files - {staging}
  {
    TotalWith(files, staging, bytes);
  }

  lemma BeginKeepsInv(cfg: Config, s: State, t: State)
    requires Inv(cfg, s) && Begins(cfg, s, t)
    ensures Inv(cfg, t) && Keeps(s.files, t.files)
  {
    var tree, staging := t.phase.tree, t.phase.staging;
    StagingChangesKeepSound(cfg, s.files, staging, []);
    CountWithout(s.files, staging);
    StagingKeepsCapacity(cfg, s.files, staging, []);
    ReservedSizeOfAccepted(cfg, TreeDigest(tree, cfg.hash), tree);
    StagingNamesAreNotCandidates(staging, TreeDigest(tree, cfg.hash));
  }

  lemma WriteKeepsInv(cfg: Config, s: State, t: State)
    requires Inv(cfg, s) && Writes(cfg, s, t)
    ensures Inv(cfg, t) && Keeps(s.files, t.files)
  {
    var tree, staging := s.phase.tree, s.phase.staging;
    StagingChangesKeepSound(cfg, s.files, staging, t.files[staging]);
    CountWithout(s.files, staging);
    StagingKeepsCapacity(cfg, s.files, staging, t.files[staging]);
    StagingNamesAreNotCandidates(staging, TreeDigest(tree, cfg.hash));
  }

  lemma RenameKeepsCapacity(cfg: Config, files: Files, staging: Bytes, target: Bytes)
    requires WithinCapacity(cfg, files) && staging in files && target !in files
    ensures WithinCapacity(cfg, (files - {staging})[target := files[staging]])
  {
    var without := files - {staging};
    TotalWithout(files, staging);
    TotalWith(without, target, files[staging]);
    CountWithout(files, staging);
    CountWithout(without, target);
  }

  lemma AddingKeeps(files: Files, name: Bytes, bytes: Bytes)
    requires name !in files
    ensures Keeps(files, files[name := bytes])
  {
  }

  /** A new candidate file that holds the archive of an accepted tree. */
  lemma PublishedIsSound(cfg: Config, files: Files, tree: Tree)
    requires Sound(cfg, files) && TreeName(cfg, tree) !in files
    requires ValidateTree(tree, cfg.limits).Pass? && Writable(tree) && |TreeArchive(cfg, tree)| < U64_RANGE
    ensures var after := files[TreeName(cfg, tree) := TreeArchive(cfg, tree)];
            Sound(cfg, after) && Holds(cfg, after, tree)
  {
    var target, archive := TreeName(cfg, tree), TreeArchive(cfg, tree);
    var after := files[target := archive];
    ArchiveRoundTrip(tree, cfg.limits, cfg.hash);
    ParsesExactlyCandidateNames(target, TreeDigest(tree, cfg.hash));
    forall digest: Digest | CandidateName(digest) in after
      ensures |after[CandidateName(digest)]| < U64_RANGE
      ensures Decode(after[CandidateName(digest)], |after[CandidateName(digest)]|, digest, cfg.limits, cfg.hash).Ok?
    {
      if CandidateName(digest) == target {
        CandidateNamesAreInjective(digest, TreeDigest(tree, cfg.hash));
      } else {
        assert CandidateName(digest) in files;
      }
    }
  }

  lemma PublishKeepsInv(cfg: Config, s: State, t: State)
    requires Inv(cfg, s) && Publishes(cfg, s, t)
    ensures Inv(cfg, t) && Keeps(s.files, t.files)
  {
    var tree, staging := s.phase.tree, s.phase.staging;
    var without := s.files - {staging};
    StagingChangesKeepSound(cfg, s.files, staging, []);
    StagingNamesAreNotCandidates(staging, TreeDigest(tree, cfg.hash));
    RenameKeepsCapacity(cfg, s.files, staging, TreeName(cfg, tree));
    PublishedIsSound(cfg, without, tree);
    AddingKeeps(without, TreeName(cfg, tree), TreeArchive(cfg, tree));
    KeepsIsTransitive(s.files, without, t.files);
  }

  lemma DropKeepsInv(cfg: Config, s: State, t: State)
    requires Inv(cfg, s) && (CleansUp(s, t) || Fails(s, t))
    ensures Inv(cfg, t) && Keeps(s.files, t.files)
  {
    var without := s.files - {s.phase.staging};
    StagingChangesKeepSound(cfg, s.files, s.phase.staging, []);
    RemovalKeepsCapacity(cfg, s.files, s.phase.staging);
    assert t == State(s.files, Idle) || t == State(without, Idle);
    assert Keeps(s.files, s.files) && Keeps(s.files, without);
  }

  /** Every step keeps the invariant and every published candidate. */
  lemma NextKeepsInv(cfg: Config, s: State, t: State)
    requires Inv(cfg, s) && Next(cfg, s, t)
    ensures Inv(cfg, t) && Keeps(s.files, t.files)
  {
    if Begins(cfg, s, t) {
      BeginKeepsInv(cfg, s, t);
    } else if Writes(cfg, s, t) {
      WriteKeepsInv(cfg, s, t);
    } else if Publishes(cfg, s, t) {
      PublishKeepsInv(cfg, s, t);
    } else if CleansUp(s, t) || Fails(s, t) {
      DropKeepsInv(cfg, s, t);
    }
  }

  // Runs.

  ghost function Steps(cfg: Config): (State, State) -> bool {
    (s: State, t: State) => Next(cfg, s, t)
  }

  ghost function Safe(cfg: Config): State -> bool {
    (s: State) => Inv(cfg, s)
  }

  ghost function Keeping(): (State, State) -> bool {
    (s: State, t: State) => Keeps(s.files, t.files)
  }

  ghost predicate StartsEmpty(trace: seq<State>) {
    trace != [] && trace[0] == State(map[], Idle)
  }

  /** A run that takes an idle store from `before` to `after`. */
  ghost predicate Moves(cfg: Config, trace: seq<State>, before: Files, after: Files) {
    Leads(Steps(cfg), trace, State(before, Idle), State(after, Idle))
  }

  lemma KeepsIsTransitive(a: Files, b: Files, c: Files)
    requires Keeps(a, b) && Keeps(b, c)
    ensures Keeps(a, c)
  {
    forall digest: Digest | CandidateName(digest) in a
      ensures CandidateName(digest) in c && c[CandidateName(digest)] == a[CandidateName(digest)]
    {
      assert CandidateName(digest) in b;
    }
  }

  lemma StepsAreSafe(cfg: Config)
    ensures Invariant(Steps(cfg), Safe(cfg)) && Progress(Steps(cfg), Safe(cfg), Keeping())
  {
    forall s, t | Safe(cfg)(s) && Steps(cfg)(s, t) ensures Safe(cfg)(t) && Keeping()(s, t) {
      NextKeepsInv(cfg, s, t);
    }
    forall s, t, u | Keeping()(s, t) && Keeping()(t, u) ensures Keeping()(s, u) {
      KeepsIsTransitive(s.files, t.files, u.files);
    }
  }

  lemma RunKeepsInv(cfg: Config, trace: seq<State>, i: nat)
    requires Run(Steps(cfg), trace) && i < |trace| && Inv(cfg, trace[0])
    ensures Inv(cfg, trace[i])
  {
    StepsAreSafe(cfg);
    HoldsAlong(Steps(cfg), Safe(cfg), trace, i);
    assert Safe(cfg)(trace[i]);
  }

  lemma RunKeepsCandidates(cfg: Config, trace: seq<State>, i: nat, j: nat)
    requires Run(Steps(cfg), trace) && i <= j < |trace| && Inv(cfg, trace[0])
    ensures Keeps(trace[i].files, trace[j].files)
  {
    StepsAreSafe(cfg);
    RelatesAlong(Steps(cfg), Safe(cfg), Keeping(), trace, i, j);
    assert Keeping()(trace[i], trace[j]);
  }

  lemma EmptyStoreIsSound(cfg: Config)
    ensures Inv(cfg, State(map[], Idle))
  {
    var empty: Files := map[];
    assert TotalBytes(empty) == 0 && |empty| == 0;
  }

  /** In every state of every run from an empty store, with the process stopping anywhere:
      each file is a candidate or a staging file, each candidate decodes under its own name, and
      entries and bytes, leftover staging files included, are within capacity. */
  lemma StoreSafety(cfg: Config, trace: seq<State>, i: nat)
    requires Run(Steps(cfg), trace) && StartsEmpty(trace) && i < |trace|
    ensures Sound(cfg, trace[i].files) && WithinCapacity(cfg, trace[i].files)
    ensures InventoryAccepts(cfg, trace[i].files)
  {
    EmptyStoreIsSound(cfg);
    RunKeepsInv(cfg, trace, i);
  }

  /** Published bytes never change, whatever happens later. */
  lemma PublishedBytesAreImmutable(cfg: Config, trace: seq<State>, i: nat, j: nat, digest: Digest)
    requires Run(Steps(cfg), trace) && StartsEmpty(trace) && i <= j < |trace|
    requires CandidateName(digest) in trace[i].files
    ensures CandidateName(digest) in trace[j].files
    ensures trace[j].files[CandidateName(digest)] == trace[i].files[CandidateName(digest)]
  {
    EmptyStoreIsSound(cfg);
    RunKeepsCandidates(cfg, trace, i, j);
  }

  /** What loading a published tree yields: the canonical tree, unless the size check is too small for it. */
  function LoadOfPublished(cfg: Config, tree: Tree): Result<Tree> {
    if BoundAdmits(|TreeArchive(cfg, tree)|, cfg.limits) then Ok(Canonical(tree)) else Err(LimitExceeded)
  }

  lemma LoadsWhatItHolds(cfg: Config, files: Files, tree: Tree)
    requires Holds(cfg, files, tree)
    ensures Load(cfg, files, TreeDigest(tree, cfg.hash)) == LoadOfPublished(cfg, tree)
  {
    var digest := TreeDigest(tree, cfg.hash);
    var bytes := files[CandidateName(digest)];
    DecodeSound(bytes, |bytes|, digest, cfg.limits, cfg.hash, Canonical(tree));
    CanonicalIdempotent(tree);
    ValidatesExactlyAcceptable(Canonical(tree), cfg.limits);
    WrittenArchivesPassTheSizeCheck(digest, Canonical(tree), cfg.limits);
  }

  lemma HoldsIsKept(cfg: Config, before: Files, after: Files, tree: Tree)
    requires Holds(cfg, before, tree) && Keeps(before, after)
    ensures Holds(cfg, after, tree)
  {
    assert after[TreeName(cfg, tree)] == before[TreeName(cfg, tree)];
  }

  lemma PublishedTreesAreHeld(cfg: Config, trace: seq<State>, i: nat, j: nat)
    requires Run(Steps(cfg), trace) && i <= j < |trace| && Inv(cfg, trace[0]) && trace[i].phase.Published?
    ensures Holds(cfg, trace[j].files, trace[i].phase.tree)
  {
    RunKeepsInv(cfg, trace, i);
    RunKeepsCandidates(cfg, trace, i, j);
    HoldsIsKept(cfg, trace[i].files, trace[j].files, trace[i].phase.tree);
  }

  /** From the publication of a tree on, under any limits, loading its digest yields the canonical
      tree exactly when the size check admits its archive. */
  lemma RetainedTreesStayLoadable(cfg: Config, trace: seq<State>, i: nat, j: nat)
    requires Run(Steps(cfg), trace) && StartsEmpty(trace) && i <= j < |trace|
    requires trace[i].phase.Published?
    ensures Load(cfg, trace[j].files, TreeDigest(trace[i].phase.tree, cfg.hash))
            == LoadOfPublished(cfg, trace[i].phase.tree)
  {
    EmptyStoreIsSound(cfg);
    PublishedTreesAreHeld(cfg, trace, i, j);
    LoadsWhatItHolds(cfg, trace[j].files, trace[i].phase.tree);
  }

  // The store object.

  /** Where a retain may be stopped: while writing, behind the write, behind the rename.
      `removed` tells whether the staging file could still be deleted. */
  datatype Fault =
    | Healthy
    | InWrite(cut: nat, removed: bool)
    | AfterWrite(removed: bool)
    | AfterPublish(removed: bool)

  function PairName(pair: (Digest, Tree)): Bytes {
    CandidateName(pair.0)
  }

  lemma LoadedNames(names: seq<Bytes>, i: nat, loaded: seq<(Digest, Tree)>, pair: (Digest, Tree))
    requires i < |names| && Map(PairName, loaded) == names[..i] && PairName(pair) == names[i]
    ensures Map(PairName, loaded + [pair]) == names[..i + 1]
  {
    MapAppend(PairName, loaded, pair);
    assert names[..i + 1] == names[..i] + [names[i]];
  }

  predicate Fits(capacity: Capacity, entries: nat, bytes: nat, tree: Tree) {
    && EncodedCandidateBytes(tree).Ok?
    && entries + 1 <= capacity.entries
    && bytes + EncodedCandidateBytes(tree).value <= capacity.bytes
  }

  /** What a retain without faults needs of the store to succeed. */
  ghost predicate Retainable(cfg: Config, files: Files, tree: Tree, staging: Bytes) {
    && ValidateTree(tree, cfg.limits).Pass? && InventoryAccepts(cfg, files)
    && if TreeName(cfg, tree) in files then
         var loaded := Load(cfg, files, TreeDigest(tree, cfg.hash));
         loaded.Ok? && CanonicallyEqual(loaded.value, tree)
       else
         Writable(tree) && staging !in files && Fits(cfg.capacity, |files|, TotalBytes(files), tree)
  }

  /** Once a tree is published, retaining it again, under any staging name and however the first time
      ended, succeeds exactly when the size check admits its archive. */
  lemma RetryConfirms(cfg: Config, files: Files, tree: Tree, staging: Bytes)
    requires Inv(cfg, State(files, Idle)) && Holds(cfg, files, tree) && ValidateTree(tree, cfg.limits).Pass?
    ensures Retainable(cfg, files, tree, staging) <==> BoundAdmits(|TreeArchive(cfg, tree)|, cfg.limits)
  {
    LoadsWhatItHolds(cfg, files, tree);
    CanonicalIdempotent(tree);
    CanonicallyEqualIsUnordered(Canonical(tree), tree);
  }

  class ContentCandidateStore {
    const cfg: Config
    var files: Files

    constructor (cfg: Config, files: Files)
      ensures this.cfg == cfg && this.files == files
    {
      this.cfg, this.files := cfg, files;
    }

    /** Scans the directory in any order; refuses unknown entries and a directory over capacity. */
    method TakeInventory() returns (r: Result<Inventory>)
      ensures r.Ok? <==> InventoryAccepts(cfg, files)
      ensures r.Ok? ==> r.value.entries == |files| && r.value.bytes == TotalBytes(files)
      ensures r.Ok? ==> ListsCandidates(IsStagingName, r.value.candidates, files)
    {
      r := ScanDirectory(IsStagingName, IsCandidateName, cfg.capacity, files);
    }

    method LoadCandidate(digest: Digest) returns (r: Result<Tree>)
      ensures r == Load(cfg, files, digest)
    {
      var name := CandidateName(digest);
      if name !in files || |files[name]| >= U64_RANGE {
        return Err(Io);
      }
      if !SizeAdmitted(|files[name]|, cfg.limits) {
        return Err(LimitExceeded);
      }
      r := DecodeCandidate(files[name], |files[name]|, digest, cfg.limits, cfg.hash);
    }

    /** Loads every candidate in name order, or fails with the first one that does not load. */
    method LoadAll() returns (r: Result<seq<(Digest, Tree)>>)
      ensures r.Ok? ==>
                && InventoryAccepts(cfg, files) && ListsCandidates(IsStagingName, Map(PairName, r.value), files)
                && forall i | 0 <= i < |r.value| :: Load(cfg, files, r.value[i].0) == Ok(r.value[i].1)
      ensures r.Err? && InventoryAccepts(cfg, files) ==>
                exists names, i ::
                  ListsCandidates(IsStagingName, names, files) && FailsFirstAt(cfg, files, names, i, r.error)
    {
      var inventory := TakeInventory();
      if inventory.Err? {
        return Err(inventory.error);
      }
      r := LoadNames(inventory.value.candidates);
    }

    method LoadNames(names: seq<Bytes>) returns (r: Result<seq<(Digest, Tree)>>)
      requires forall name | name in names :: name in files && ParseCandidateName(name).Some?
      ensures r.Ok? ==> Map(PairName, r.value) == names
      ensures r.Ok? ==> forall i | 0 <= i < |r.value| :: Load(cfg, files, r.value[i].0) == Ok(r.value[i].1)
      ensures r.Err? ==> exists i :: FailsFirstAt(cfg, files, names, i, r.error)
    {
      var loaded: seq<(Digest, Tree)> := [];
      for i := 0 to |names|
        invariant Map(PairName, loaded) == names[..i]
        invariant forall k | 0 <= k < i :: Load(cfg, files, loaded[k].0) == Ok(loaded[k].1)
        invariant LoadsEach(cfg, files, names[..i])
      {
        assert names[i] in names;
        var pair := LoadPair(names[i]);
        if pair.Err? {
          assert FailsFirstAt(cfg, files, names, i, pair.error);
          return Err(pair.error);
        }
        OneMore(names, i);
        ghost var before := loaded;
        loaded := loaded + [pair.value];
        LoadedNames(names, i, before, pair.value);
      }
      assert names[..|names|] == names;
      return Ok(loaded);
    }

    method LoadPair(name: Bytes) returns (r: Result<(Digest, Tree)>)
      requires ParseCandidateName(name).Some?
      ensures r.Ok? ==> PairName(r.value) == name && Load(cfg, files, r.value.0) == Ok(r.value.1)
      ensures r.Ok? ==> LoadNamed(cfg, files, name).Ok?
      ensures r.Err? ==> LoadNamed(cfg, files, name) == Err(r.error)
    {
      var digest := ParseCandidateName(name).value;
      ParsesExactlyCandidateNames(name, digest);
      var tree := LoadCandidate(digest);
      return if tree.Ok? then Ok((digest, tree.value)) else Err(tree.error);
    }

    /** The rename that replaces nothing; an occupied name must already hold the same tree. */
    method PublishStaged(staging: Bytes, digest: Digest, tree: Tree) returns (outcome: Outcome)
      requires staging in files
      modifies this
      ensures var target := CandidateName(digest);
              if target in old(files) then
                && files == old(files)
                && var loaded := Load(cfg, old(files), digest);
                   outcome == if loaded.Err? then Fail(loaded.error)
                              else Need(CanonicallyEqual(loaded.value, tree), Collision)
              else
                outcome.Pass? && files == (old(files) - {staging})[target := old(files)[staging]]
    {
      var target := CandidateName(digest);
      if target !in files {
        files := (files - {staging})[target := files[staging]];
        return Pass;
      }
      var loaded := LoadCandidate(digest);
      if loaded.Err? {
        return Fail(loaded.error);
      }
      return Need(CanonicallyEqual(loaded.value, tree), Collision);
    }

    /** Adds the staging file and fills it, as far as `fault` lets it get. */
    method WriteStaging(staging: Bytes, digest: Digest, tree: Tree, expected: nat, fault: Fault)
      returns (outcome: Outcome)
      requires staging in files && files[staging] == []
      modifies this
      ensures outcome.Pass? <==> Writable(tree) && |Archive(digest, tree)| == expected && !fault.InWrite?
      ensures outcome.Pass? ==> files == old(files)[staging := Archive(digest, tree)]
      ensures staging in files && files == old(files)[staging := files[staging]]
      ensures files[staging] <= Archive(digest, tree)
    {
      var writer := new ArchiveWriter();
      outcome := writer.EncodeCandidate(digest, tree);
      assert [] + Archive(digest, tree) == Archive(digest, tree);
      if fault.InWrite? {
        var cut := if fault.cut <= |writer.written| then fault.cut else |writer.written|;
        files := files[staging := writer.written[..cut]];
        return Fail(Io);
      }
      files := files[staging := writer.written];
      if outcome.Pass? {
        outcome := Need(|files[staging]| == expected, InvalidArchive);
      }
    }

    /** A failed retain drops its staging file if it still can. */
    method DropStaging(staging: Bytes, removed: bool)
      modifies this
      ensures files == if removed then old(files) - {staging} else old(files)
    {
      if removed {
        files := files - {staging};
      }
    }

    /** A candidate already stored under the digest must hold the same tree. */
    method ConfirmExisting(digest: Digest, tree: Tree) returns (outcome: Outcome)
      ensures outcome.Pass? <==>
              Load(cfg, files, digest).Ok? && CanonicallyEqual(Load(cfg, files, digest).value, tree)
      ensures outcome.Pass? ==> Load(cfg, files, digest) == Ok(Canonical(tree))
    {
      var loaded := LoadCandidate(digest);
      if loaded.Err? {
        return Fail(loaded.error);
      }
      if !CanonicallyEqual(loaded.value, tree) {
        return Fail(Collision);
      }
      LoadedIsCanonical(cfg, files, digest, tree);
      return Pass;
    }

    /** Room for one more entry and for its whole archive. */
    method RequireCapacity(entries: nat, bytes: nat, tree: Tree) returns (r: Result<nat>)
      ensures r.Ok? <==> Fits(cfg.capacity, entries, bytes, tree)
      ensures r.Ok? ==> EncodedCandidateBytes(tree).Ok? && r.value == EncodedCandidateBytes(tree).value
    {
      r := EncodedCandidateBytes(tree);
      if r.Ok? && (entries + 1 > cfg.capacity.entries || bytes + r.value > cfg.capacity.bytes) {
        return Err(CapacityExceeded);
      }
    }

    /** Retains a tree.  The ghost trace shows that every change of the directory is one step of
        the store, whatever fault stops it. */
    method Retain(tree: Tree, staging: Bytes, fault: Fault) returns (r: Result<Digest>, ghost trace: seq<State>)
      requires IsStagingName(staging)
      modifies this
      ensures Moves(cfg, trace, old(files), files)
      ensures fault.Healthy? ==> (r.Ok? <==> Retainable(cfg, old(files), tree, staging))
      ensures r.Ok? ==> r.value == TreeDigest(tree, cfg.hash)
      ensures r.Ok? && Inv(cfg, State(old(files), Idle)) ==>
                Load(cfg, files, TreeDigest(tree, cfg.hash)) == LoadOfPublished(cfg, tree)
    {
      trace := [State(files, Idle)];
      var outcome := RunValidation(tree, cfg.limits);
      if outcome.Fail? {
        return Err(outcome.error), trace;
      }
      var digest := DigestTree(tree, cfg.hash);
      var inventory := TakeInventory();
      if inventory.Err? {
        return Err(inventory.error), trace;
      }
      NotStaging(digest);
      if CandidateName(digest) in inventory.value.candidates {
        outcome := ConfirmExisting(digest, tree);
        if outcome.Fail? {
          return Err(outcome.error), trace;
        }
        LoadsWhatItHolds(cfg, files, tree);
        return Ok(digest), trace;
      }
      var size := RequireCapacity(inventory.value.entries, inventory.value.bytes, tree);
      if size.Err? {
        return Err(size.error), trace;
      }
      if staging in files {
        return Err(Io), trace;
      }
      r, trace := AddCandidate(tree, digest, staging, size.value, fault);
      if r.Ok? && Inv(cfg, State(old(files), Idle)) {
        LoadsWhatItHolds(cfg, files, tree);
      }
    }

    /** The steps of a retain that has been admitted: stage, fill, publish, clean up. */
    method AddCandidate(tree: Tree, digest: Digest, staging: Bytes, size: nat, fault: Fault)
      returns (r: Result<Digest>, ghost trace: seq<State>)
      requires digest == TreeDigest(tree, cfg.hash)
      requires Begins(cfg, State(files, Idle), State(files[staging := []], Writing(tree, staging)))
      requires EncodedCandidateBytes(tree).value == size
      modifies this
      ensures Moves(cfg, trace, old(files), files)
      ensures fault.Healthy? ==> (r.Ok? <==> Writable(tree))
      ensures r.Ok? ==> r.value == digest
      ensures r.Ok? && Inv(cfg, State(old(files), Idle)) ==> Holds(cfg, files, tree)
    {
      trace := [State(files, Idle)];
      ReservedSizeOfAccepted(cfg, digest, tree);
      NotStaging(digest);
      files := files[staging := []];
      trace := Extend(Steps(cfg), trace, State(files, Writing(tree, staging)));
      r, trace := FillAndPublish(tree, digest, staging, size, fault, trace);
    }

    method FillAndPublish(tree: Tree, digest: Digest, staging: Bytes, size: nat, fault: Fault, ghost before: seq<State>)
      returns (r: Result<Digest>, ghost trace: seq<State>)
      requires digest == TreeDigest(tree, cfg.hash) && staging in files && files[staging] == []
      requires IsStagingName(staging) && CandidateName(digest) !in files
      requires EncodedCandidateBytes(tree).Ok? && size == EncodedCandidateBytes(tree).value == |Archive(digest, tree)|
      requires Run(Steps(cfg), before) && before[|before| - 1] == State(files, Writing(tree, staging))
      modifies this
      ensures Leads(Steps(cfg), trace, before[0], State(files, Idle))
      ensures fault.Healthy? ==> (r.Ok? <==> Writable(tree))
      ensures r.Ok? ==> r.value == digest
      ensures r.Ok? && Inv(cfg, before[0]) ==> Holds(cfg, files, tree)
    {
      var outcome;
      outcome, trace := Fill(tree, digest, staging, size, fault, before);
      if outcome.Fail? {
        return Err(outcome.error), trace;
      }
      r, trace := PublishWritten(tree, digest, staging, fault, trace);
    }

    /** Fills the staging file with the whole archive, or drops it. */
    method Fill(tree: Tree, digest: Digest, staging: Bytes, size: nat, fault: Fault, ghost before: seq<State>)
      returns (outcome: Outcome, ghost trace: seq<State>)
      requires digest == TreeDigest(tree, cfg.hash) && staging in files && files[staging] == []
      requires IsStagingName(staging) && CandidateName(digest) !in files
      requires EncodedCandidateBytes(tree).Ok? && size == EncodedCandidateBytes(tree).value == |Archive(digest, tree)|
      requires Run(Steps(cfg), before) && before[|before| - 1] == State(files, Writing(tree, staging))
      modifies this
      ensures Leads(Steps(cfg), trace, before[0], State(files, if outcome.Pass? then Written(tree, staging) else Idle))
      ensures outcome.Pass? <==> Writable(tree) && !fault.InWrite?
      ensures outcome.Pass? ==> staging in files && CandidateName(digest) !in files
    {
      NotStaging(digest);
      outcome := WriteStaging(staging, digest, tree, size, fault);
      trace := Extend(Steps(cfg), before, State(files, Writing(tree, staging)));
      if outcome.Fail? {
        DropStaging(staging, !fault.InWrite? || fault.removed);
      }
      trace := Extend(Steps(cfg), trace, State(files, if outcome.Pass? then Written(tree, staging) else Idle));
    }

    method PublishWritten(tree: Tree, digest: Digest, staging: Bytes, fault: Fault, ghost before: seq<State>)
      returns (r: Result<Digest>, ghost trace: seq<State>)
      requires digest == TreeDigest(tree, cfg.hash) && staging in files && CandidateName(digest) !in files
      requires Run(Steps(cfg), before) && before[|before| - 1] == State(files, Written(tree, staging))
      modifies this
      ensures Leads(Steps(cfg), trace, before[0], State(files, Idle))
      ensures !fault.AfterWrite? && !fault.AfterPublish? ==> r.Ok?
      ensures r.Ok? ==> r.value == digest
      ensures r.Ok? && Inv(cfg, before[0]) ==> Holds(cfg, files, tree)
    {
      trace := before;
      if fault.AfterWrite? {
        DropStaging(staging, fault.removed);
        trace := Extend(Steps(cfg), trace, State(files, Idle));
        return Err(Io), trace;
      }
      var outcome := PublishStaged(staging, digest, tree);
      trace := Extend(Steps(cfg), trace, State(files, Published(tree, staging)));
      ghost var steps := |trace|;
      DropStaging(staging, !fault.AfterPublish? || fault.removed);
      trace := Extend(Steps(cfg), trace, State(files, Idle));
      if Inv(cfg, before[0]) {
        PublishedTreesAreHeld(cfg, trace, steps - 1, steps);
      }
      r := if fault.AfterPublish? then Err(Io) else Ok(digest);
    }
  }

  lemma NotStaging(digest: Digest)
    ensures !IsStagingName(CandidateName(digest))
  {
    if IsStagingName(CandidateName(digest)) {
      StagingNamesAreNotCandidates(CandidateName(digest), digest);
    }
  }

  lemma ReservedSizeOfAccepted(cfg: Config, digest: Digest, tree: Tree)
    requires ValidateTree(tree, cfg.limits).Pass? && EncodedCandidateBytes(tree).Ok?
    ensures EncodedCandidateBytes(tree).value == |Archive(digest, tree)|
  {
    ValidatesExactlyAcceptable(tree, cfg.limits);
    ReservedSizeIsExact(digest, tree);
  }

  lemma LoadedIsCanonical(cfg: Config, files: Files, digest: Digest, tree: Tree)
    requires Load(cfg, files, digest).Ok? && CanonicallyEqual(Load(cfg, files, digest).value, tree)
    ensures Load(cfg, files, digest) == Ok(Canonical(tree))
  {
    var loaded := Load(cfg, files, digest).value;
    var bytes := files[CandidateName(digest)];
    DecodeSound(bytes, |bytes|, digest, cfg.limits, cfg.hash, loaded);
    CanonicallyEqualIsUnordered(loaded, tree);
  }
}
