/** Admission of a content tree: limits, portable paths, byte totals and path compatibility. */
module TreeValidations {
  import opened Framing
  import opened Ordering
  import opened Content
  import opened PathRegistries
  import opened TreeDigests
  import opened ArchiveFormat

  /** The running byte total and path registry that validation and decoding both thread through. */
  datatype Ledger = Ledger(total: nat, paths: Registry)

  datatype Entry = Entry(path: Bytes, length: nat)

  function PostEntry(post: Post): Entry {
    Entry(post.path, |post.source|)
  }

  function AssetEntry(asset: Asset): Entry {
    Entry(asset.path, |asset.bytes|)
  }

  function Admit(ledger: Ledger, entry: Entry, limits: Limits): Result<Ledger> {
    var paths :- Register(ledger.paths, entry.path);
    var total :- AddTotal(ledger.total, entry.length, limits);
    Ok(Ledger(total, paths))
  }

  function AdmitAll(ledger: Ledger, entries: seq<Entry>, limits: Limits): Result<Ledger>
    decreases |entries|
  {
    if entries == [] then Ok(ledger)
    else
      var next :- Admit(ledger, entries[0], limits);
      AdmitAll(next, entries[1..], limits)
  }

  function CheckPost(post: Post, limits: Limits): Outcome {
    AndThen(ValidatePostPath(post.path, post.collection, limits),
            EnsureFileSize(|post.source|, limits.postFileBytes))
  }

  function CheckAsset(asset: Asset, limits: Limits): Outcome {
    AndThen(ValidateAssetPath(asset.path, limits), EnsureFileSize(|asset.bytes|, limits.assetFileBytes))
  }

  function CheckPublication(publication: Publication, limits: Limits): Outcome {
    AndThen(ValidatePublicationPath(publication.path, limits),
            EnsureFileSize(|publication.source|, limits.publicationFileBytes))
  }

  function ValidatePosts(ledger: Ledger, posts: seq<Post>, limits: Limits): Result<Ledger>
    decreases |posts|
  {
    if posts == [] then Ok(ledger)
    else
      :- CheckPost(posts[0], limits);
      var next :- Admit(ledger, PostEntry(posts[0]), limits);
      ValidatePosts(next, posts[1..], limits)
  }

  function ValidateAssets(ledger: Ledger, assets: seq<Asset>, limits: Limits): Result<Ledger>
    decreases |assets|
  {
    if assets == [] then Ok(ledger)
    else
      :- CheckAsset(assets[0], limits);
      var next :- Admit(ledger, AssetEntry(assets[0]), limits);
      ValidateAssets(next, assets[1..], limits)
  }

  function ValidateEntryCount(tree: Tree, limits: Limits): Outcome {
    var count := 1 + |tree.posts| + |tree.assets|;
    Need(count < U64_RANGE && count <= limits.entries && |tree.posts| < U32_RANGE && |tree.assets| < U32_RANGE,
         LimitExceeded)
  }

  /** What validation accumulates for a tree, before it compares the declared total. */
  function TreeLedger(tree: Tree, limits: Limits): Result<Ledger> {
    var early := AndThen(ValidateEntryCount(tree, limits), CheckPublication(tree.publication, limits));
    :- early;
    var total :- AddTotal(0, |tree.publication.source|, limits);
    var paths :- Register(EMPTY, tree.publication.path);
    var ledger :- ValidatePosts(Ledger(total, paths), tree.posts, limits);
    ValidateAssets(ledger, tree.assets, limits)
  }

  function ValidateTree(tree: Tree, limits: Limits): Outcome {
    match TreeLedger(tree, limits)
    case Ok(ledger) => Need(ledger.total == tree.totalBytes, InvalidArchive)
    case Err(error) => Fail(error)
  }

  // What acceptance means, independent of order.

  function TreeEntries(tree: Tree): seq<Entry> {
    [Entry(tree.publication.path, |tree.publication.source|)]
    + Map(PostEntry, tree.posts) + Map(AssetEntry, tree.assets)
  }

  function EntryPath(entry: Entry): Bytes {
    entry.path
  }

  function EntryBytes(entries: seq<Entry>): nat {
    if entries == [] then 0 else entries[0].length + EntryBytes(entries[1..])
  }

  ghost predicate EachFits(tree: Tree, limits: Limits) {
    && ValidateEntryCount(tree, limits).Pass?
    && CheckPublication(tree.publication, limits).Pass?
    && (forall post | post in tree.posts :: CheckPost(post, limits).Pass?)
    && (forall asset | asset in tree.assets :: CheckAsset(asset, limits).Pass?)
  }

  /** A tree is acceptable when each record fits its limits, all paths are compatible, and its
      declared total is the sum of its file sizes and within the tree limit. */
  ghost predicate Acceptable(tree: Tree, limits: Limits) {
    && EachFits(tree, limits)
    && Compatible(TreePaths(tree))
    && tree.totalBytes == FileBytes(tree) <= limits.totalTreeBytes
  }

  lemma {:induction false} AdmitAllSpec(ledger: Ledger, entries: seq<Entry>, limits: Limits)
    requires ledger.total <= limits.totalTreeBytes
    ensures AdmitAll(ledger, entries, limits).Ok? <==>
            && RegisterAll(ledger.paths, Map(EntryPath, entries)).Ok?
            && ledger.total + EntryBytes(entries) <= limits.totalTreeBytes
    ensures AdmitAll(ledger, entries, limits).Ok? ==>
              && AdmitAll(ledger, entries, limits).value.total == ledger.total + EntryBytes(entries)
              && Ok(AdmitAll(ledger, entries, limits).value.paths) == RegisterAll(ledger.paths, Map(EntryPath, entries))
    decreases |entries|
  {
    var paths := Map(EntryPath, entries);
    if entries != [] {
      assert paths[1..] == Map(EntryPath, entries[1..]);
      var next := Admit(ledger, entries[0], limits);
      if next.Ok? {
        AdmitAllSpec(next.value, entries[1..], limits);
      }
    }
  }

  lemma {:induction false} AdmitAllAppend(ledger: Ledger, a: seq<Entry>, b: seq<Entry>, limits: Limits)
    ensures AdmitAll(ledger, a + b, limits) ==
            if AdmitAll(ledger, a, limits).Ok? then AdmitAll(AdmitAll(ledger, a, limits).value, b, limits)
            else AdmitAll(ledger, a, limits)
    decreases |a|
  {
    if a == [] {
      assert a + b == b;
    } else {
      assert (a + b)[1..] == a[1..] + b;
      if Admit(ledger, a[0], limits).Ok? {
        AdmitAllAppend(Admit(ledger, a[0], limits).value, a[1..], b, limits);
      }
    }
  }

  lemma HeadOrTail<T>(xs: seq<T>)
    requires xs != []
    ensures forall x :: x in xs <==> x == xs[0] || x in xs[1..]
  {
    assert xs == [xs[0]] + xs[1..];
  }

  lemma {:induction false} ValidatePostsSpec(ledger: Ledger, posts: seq<Post>, limits: Limits, result: Ledger)
    ensures ValidatePosts(ledger, posts, limits) == Ok(result) <==>
            && (forall post | post in posts :: CheckPost(post, limits).Pass?)
            && AdmitAll(ledger, Map(PostEntry, posts), limits) == Ok(result)
    decreases |posts|
  {
    if posts != [] {
      HeadOrTail(posts);
      assert Map(PostEntry, posts)[1..] == Map(PostEntry, posts[1..]);
      var next := Admit(ledger, PostEntry(posts[0]), limits);
      if next.Ok? {
        ValidatePostsSpec(next.value, posts[1..], limits, result);
      }
    }
  }

  lemma {:induction false} ValidateAssetsSpec(ledger: Ledger, assets: seq<Asset>, limits: Limits, result: Ledger)
    ensures ValidateAssets(ledger, assets, limits) == Ok(result) <==>
            && (forall asset | asset in assets :: CheckAsset(asset, limits).Pass?)
            && AdmitAll(ledger, Map(AssetEntry, assets), limits) == Ok(result)
    decreases |assets|
  {
    if assets != [] {
      HeadOrTail(assets);
      assert Map(AssetEntry, assets)[1..] == Map(AssetEntry, assets[1..]);
      var next := Admit(ledger, AssetEntry(assets[0]), limits);
      if next.Ok? {
        ValidateAssetsSpec(next.value, assets[1..], limits, result);
      }
    }
  }

  lemma {:induction false} EntryBytesAppend(a: seq<Entry>, b: seq<Entry>)
    ensures EntryBytes(a + b) == EntryBytes(a) + EntryBytes(b)
  {
    if a == [] {
      assert a + b == b;
    } else {
      assert (a + b)[1..] == a[1..] + b;
      EntryBytesAppend(a[1..], b);
    }
  }

  lemma {:induction false} EntryBytesOfPosts(posts: seq<Post>)
    ensures EntryBytes(Map(PostEntry, posts)) == PostBytes(posts)
  {
    if posts != [] {
      EntryBytesOfPosts(posts[1..]);
      assert Map(PostEntry, posts)[1..] == Map(PostEntry, posts[1..]);
    }
  }

  lemma {:induction false} EntryBytesOfAssets(assets: seq<Asset>)
    ensures EntryBytes(Map(AssetEntry, assets)) == AssetBytes(assets)
  {
    if assets != [] {
      EntryBytesOfAssets(assets[1..]);
      assert Map(AssetEntry, assets)[1..] == Map(AssetEntry, assets[1..]);
    }
  }

  lemma TreeEntriesSums(tree: Tree)
    ensures EntryBytes(TreeEntries(tree)) == FileBytes(tree)
    ensures Map(EntryPath, TreeEntries(tree)) == TreePaths(tree)
  {
    var head := [Entry(tree.publication.path, |tree.publication.source|)];
    EntryBytesAppend(head, Map(PostEntry, tree.posts));
    EntryBytesAppend(head + Map(PostEntry, tree.posts), Map(AssetEntry, tree.assets));
    EntryBytesOfPosts(tree.posts);
    EntryBytesOfAssets(tree.assets);
    TreeEntryPaths(tree);
  }

  lemma TreeEntryPaths(tree: Tree)
    ensures Map(EntryPath, TreeEntries(tree)) == TreePaths(tree)
  {
  }

  const NOTHING := Ledger(0, EMPTY)

  /** The ledger of a tree is what admitting all of its entries in order yields. */
  lemma TreeLedgerSpec(tree: Tree, limits: Limits, result: Ledger)
    ensures TreeLedger(tree, limits) == Ok(result) <==>
            EachFits(tree, limits) && AdmitAll(NOTHING, TreeEntries(tree), limits) == Ok(result)
  {
    var head := [Entry(tree.publication.path, |tree.publication.source|)];
    var posts, assets := Map(PostEntry, tree.posts), Map(AssetEntry, tree.assets);
    AdmitAllAppend(NOTHING, head + posts, assets, limits);
    AdmitAllAppend(NOTHING, head, posts, limits);
    var first := Admit(NOTHING, head[0], limits);
    if first.Ok? {
      assert AdmitAll(NOTHING, head, limits) == AdmitAll(first.value, [], limits) == first;
      var middle := ValidatePosts(first.value, tree.posts, limits);
      var admitted := AdmitAll(first.value, posts, limits);
      if middle.Ok? {
        ValidatePostsSpec(first.value, tree.posts, limits, middle.value);
        ValidateAssetsSpec(middle.value, tree.assets, limits, result);
      } else if admitted.Ok? {
        ValidatePostsSpec(first.value, tree.posts, limits, admitted.value);
      }
    }
  }

  /** Validation accepts exactly the acceptable trees. */
  lemma ValidatesExactlyAcceptable(tree: Tree, limits: Limits)
    ensures ValidateTree(tree, limits).Pass? <==> Acceptable(tree, limits)
  {
    TreeEntriesSums(tree);
    AdmitAllSpec(NOTHING, TreeEntries(tree), limits);
    AcceptsExactlyCompatible(TreePaths(tree));
    var ledger := TreeLedger(tree, limits);
    var admitted := AdmitAll(NOTHING, TreeEntries(tree), limits);
    if ledger.Ok? {
      TreeLedgerSpec(tree, limits, ledger.value);
    } else if admitted.Ok? {
      TreeLedgerSpec(tree, limits, admitted.value);
    }
  }

  lemma TreePathsPermute(tree: Tree)
    ensures multiset(TreePaths(Canonical(tree))) == multiset(TreePaths(tree))
  {
    CanonicalIdempotent(tree);
    MapPermutes(PostPath, Canonical(tree).posts, tree.posts);
    MapPermutes(AssetPath, Canonical(tree).assets, tree.assets);
  }

  lemma FileBytesAreUnordered(tree: Tree)
    ensures FileBytes(Canonical(tree)) == FileBytes(tree)
  {
    CanonicalIdempotent(tree);
    PostSumsAreUnordered(Canonical(tree).posts, tree.posts);
    AssetSumsAreUnordered(Canonical(tree).assets, tree.assets);
  }

  lemma FittingIsUnordered(tree: Tree, limits: Limits)
    ensures EachFits(Canonical(tree), limits) <==> EachFits(tree, limits)
  {
    SortPermutes(PostLeq, tree.posts);
    SortPermutes(AssetLeq, tree.assets);
  }

  /** Acceptance does not depend on the order of posts and assets. */
  lemma AcceptanceIsUnordered(tree: Tree, limits: Limits)
    ensures Acceptable(Canonical(tree), limits) <==> Acceptable(tree, limits)
  {
    FittingIsUnordered(tree, limits);
    FileBytesAreUnordered(tree);
    TreePathsPermute(tree);
    CompatibleIsOrderFree(TreePaths(Canonical(tree)), TreePaths(tree));
  }

  lemma RecordPathsListed(tree: Tree)
    ensures forall post | post in tree.posts :: post.path in TreePaths(tree)
    ensures forall asset | asset in tree.assets :: asset.path in TreePaths(tree)
  {
    var paths := TreePaths(tree);
    forall i | 0 <= i < |tree.posts| ensures tree.posts[i].path in paths {
      assert paths[1 + i] == tree.posts[i].path;
    }
    forall i | 0 <= i < |tree.assets| ensures tree.assets[i].path in paths {
      assert paths[1 + |tree.posts| + i] == tree.assets[i].path;
    }
  }

  lemma WritableTreePaths(tree: Tree)
    requires Writable(tree)
    ensures forall path | path in TreePaths(tree) :: WritablePath(path)
  {
    forall i | 0 <= i < |TreePaths(tree)| ensures WritablePath(TreePaths(tree)[i]) {
      if 1 <= i <= |tree.posts| {
        assert WritablePost(tree.posts[i - 1]);
      } else if i > |tree.posts| {
        assert WritableAsset(tree.assets[i - 1 - |tree.posts|]);
      }
    }
  }

  /** An accepted tree can be archived exactly when each of its path lengths fits 32 bits. */
  lemma AcceptedIsWritable(tree: Tree, limits: Limits)
    requires Acceptable(tree, limits)
    ensures Writable(tree) <==> forall path | path in TreePaths(tree) :: WritablePath(path)
    ensures limits.pathBytes < U32_RANGE ==> Writable(tree)
  {
    RecordPathsListed(tree);
    if Writable(tree) {
      WritableTreePaths(tree);
    }
    assert tree.publication.path == TreePaths(tree)[0];
    AcceptedRecords(tree, limits);
  }

  lemma AcceptedRecords(tree: Tree, limits: Limits)
    requires Acceptable(tree, limits)
    ensures |tree.posts| < U32_RANGE && |tree.assets| < U32_RANGE
    ensures |tree.publication.path| <= limits.pathBytes && |tree.publication.source| < U64_RANGE
    ensures forall post | post in tree.posts :: |post.path| <= limits.pathBytes && |post.source| < U64_RANGE
    ensures forall asset | asset in tree.assets :: |asset.path| <= limits.pathBytes && |asset.bytes| < U64_RANGE
  {
    forall post | post in tree.posts ensures |post.path| <= limits.pathBytes && |post.source| < U64_RANGE {
      assert CheckPost(post, limits).Pass?;
    }
    forall asset | asset in tree.assets ensures |asset.path| <= limits.pathBytes && |asset.bytes| < U64_RANGE {
      assert CheckAsset(asset, limits).Pass?;
    }
  }

  /** Every length in an accepted tree fits the eight-byte length fields of its transcript. */
  lemma AcceptedIsSized(tree: Tree, limits: Limits)
    requires ValidateTree(tree, limits).Pass?
    ensures SizedTree(tree)
  {
    ValidatesExactlyAcceptable(tree, limits);
    forall post | post in tree.posts ensures SizedPost(post) {
      assert CheckPost(post, limits).Pass?;
    }
    forall asset | asset in tree.assets ensures SizedAsset(asset) {
      assert CheckAsset(asset, limits).Pass?;
    }
  }

  /** Between accepted trees, under whatever limits each was accepted, the transcript decides
      canonical equality: validation leaves no freedom to the declared total. */
  lemma TranscriptDecidesAcceptedTrees(left: Tree, right: Tree, leftLimits: Limits, rightLimits: Limits)
    requires ValidateTree(left, leftLimits).Pass? && ValidateTree(right, rightLimits).Pass?
    ensures TreeTranscript(left) == TreeTranscript(right) <==> CanonicallyEqual(left, right)
  {
    AcceptedIsSized(left, leftLimits);
    AcceptedIsSized(right, rightLimits);
    ValidatesExactlyAcceptable(left, leftLimits);
    ValidatesExactlyAcceptable(right, rightLimits);
    TranscriptIsTheUnorderedTree(left, right);
    CanonicallyEqualIsUnordered(left, right);
    if multiset(left.posts) == multiset(right.posts) && multiset(left.assets) == multiset(right.assets) {
      PostSumsAreUnordered(left.posts, right.posts);
      AssetSumsAreUnordered(left.assets, right.assets);
    }
  }

  /** The running state of one validation. */
  class TreeValidation {
    const limits: Limits
    const paths: PathRegistry
    var total: nat

    function Model(): Ledger
      reads this, paths
    {
      Ledger(total, paths.Model())
    }

    constructor (limits: Limits, total: nat)
      ensures this.limits == limits && fresh(paths) && Model() == Ledger(total, EMPTY)
    {
      this.limits := limits;
      this.total := total;
      paths := new PathRegistry();
    }

    method AdmitEntry(entry: Entry) returns (outcome: Outcome)
      modifies this, paths
      ensures outcome.Pass? ==> Admit(old(Model()), entry, limits) == Ok(Model())
      ensures outcome.Fail? ==> Admit(old(Model()), entry, limits) == Err(outcome.error)
    {
      outcome := paths.RegisterPath(entry.path);
      if outcome.Fail? {
        return;
      }
      match AddTotal(total, entry.length, limits) {
        case Ok(sum) => total := sum;
        case Err(error) => outcome := Fail(error);
      }
    }

    method Posts(posts: seq<Post>) returns (outcome: Outcome)
      modifies this, paths
      ensures outcome.Pass? ==> ValidatePosts(old(Model()), posts, limits) == Ok(Model())
      ensures outcome.Fail? ==> ValidatePosts(old(Model()), posts, limits) == Err(outcome.error)
    {
      for i := 0 to |posts|
        invariant ValidatePosts(Model(), posts[i..], limits) == ValidatePosts(old(Model()), posts, limits)
      {
        assert posts[i..][1..] == posts[i + 1..];
        outcome := CheckPost(posts[i], limits);
        if outcome.Fail? {
          return;
        }
        outcome := AdmitEntry(PostEntry(posts[i]));
        if outcome.Fail? {
          return;
        }
      }
      return Pass;
    }

    method Assets(assets: seq<Asset>) returns (outcome: Outcome)
      modifies this, paths
      ensures outcome.Pass? ==> ValidateAssets(old(Model()), assets, limits) == Ok(Model())
      ensures outcome.Fail? ==> ValidateAssets(old(Model()), assets, limits) == Err(outcome.error)
    {
      for i := 0 to |assets|
        invariant ValidateAssets(Model(), assets[i..], limits) == ValidateAssets(old(Model()), assets, limits)
      {
        assert assets[i..][1..] == assets[i + 1..];
        outcome := CheckAsset(assets[i], limits);
        if outcome.Fail? {
          return;
        }
        outcome := AdmitEntry(AssetEntry(assets[i]));
        if outcome.Fail? {
          return;
        }
      }
      return Pass;
    }
  }

  /** Validates a tree under limits. */
  method RunValidation(tree: Tree, limits: Limits) returns (outcome: Outcome)
    ensures outcome == ValidateTree(tree, limits)
    ensures outcome.Pass? <==> Acceptable(tree, limits)
  {
    ValidatesExactlyAcceptable(tree, limits);
    outcome := ValidateEntryCount(tree, limits);
    if outcome.Fail? {
      return;
    }
    outcome := CheckPublication(tree.publication, limits);
    if outcome.Fail? {
      return;
    }
    var total := AddTotal(0, |tree.publication.source|, limits);
    if total.Err? {
      return Fail(total.error);
    }
    var validation := new TreeValidation(limits, total.value);
    outcome := validation.paths.RegisterPath(tree.publication.path);
    if outcome.Fail? {
      return;
    }
    outcome := validation.Posts(tree.posts);
    if outcome.Fail? {
      return;
    }
    outcome := validation.Assets(tree.assets);
    if outcome.Fail? {
      return;
    }
    outcome := Need(validation.total == tree.totalBytes, InvalidArchive);
  }
}
