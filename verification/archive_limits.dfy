/** Where the archive's size arithmetic meets the store's limits, and where it stops being exact. */
module ArchiveLimits {
  import opened Framing
  import opened Ordering
  import opened Content
  import opened PathRegistries
  import opened Transcripts
  import opened TreeDigests
  import opened ArchiveFormat
  import opened TreeValidations
  import opened ArchiveDecoding

  /** The bound on an accepted tree's archive, before it is computed in 128 bits. */
  function ExactMaximum(limits: Limits): nat {
    ARCHIVE_HEADER_BYTES + SEQUENCE_LENGTH_BYTES * 2 + PUBLICATION_RECORD_OVERHEAD
    + limits.entries * (limits.pathBytes + POST_RECORD_OVERHEAD) + limits.totalTreeBytes
  }

  /** `maximum_archive_bytes`: unchecked u128 arithmetic, which wraps in release builds. */
  function MaximumArchiveBytes(limits: Limits): nat {
    ExactMaximum(limits) % U128_RANGE
  }

  /** The size check `load` makes before it decodes. */
  predicate SizeAdmitted(archiveBytes: nat, limits: Limits) {
    archiveBytes <= MaximumArchiveBytes(limits)
  }

  lemma {:induction false} PathLengthsBound(paths: seq<Bytes>, bound: nat)
    requires forall path | path in paths :: |path| <= bound
    ensures PathLengths(paths) <= |paths| * bound
  {
    if paths != [] {
      assert forall path | path in paths[1..] :: path in paths;
      PathLengthsBound(paths[1..], bound);
      OneMoreFits(|paths[0]|, PathLengths(paths[1..]), |paths[1..]|, bound);
    }
  }

  lemma OneMoreFits(head: nat, rest: nat, count: nat, bound: nat)
    requires head <= bound && rest <= count * bound
    ensures head + rest <= (count + 1) * bound
  {
  }

  lemma AcceptedPathsBounded(tree: Tree, limits: Limits)
    requires Acceptable(tree, limits)
    ensures forall path | path in TreePaths(tree) :: |path| <= limits.pathBytes
  {
    assert forall post | post in tree.posts :: CheckPost(post, limits).Pass?;
    assert forall post | post in tree.posts :: |PostPath(post)| <= limits.pathBytes;
    assert forall asset | asset in tree.assets :: CheckAsset(asset, limits).Pass?;
    assert forall asset | asset in tree.assets :: |AssetPath(asset)| <= limits.pathBytes;
    MapMembers(PostPath, tree.posts);
    MapMembers(AssetPath, tree.assets);
  }

  lemma EntriesArithmetic(posts: nat, assets: nat, entries: nat, bound: nat, paths: nat)
    requires 1 + posts + assets <= entries && paths <= (1 + posts + assets) * bound
    ensures posts * POST_RECORD_OVERHEAD + assets * ASSET_RECORD_OVERHEAD + paths
         <= entries * (bound + POST_RECORD_OVERHEAD)
  {
    var count := 1 + posts + assets;
    var spare := entries - count;
    assert entries * bound == count * bound + spare * bound;
    assert spare * bound >= 0;
    assert entries * (bound + POST_RECORD_OVERHEAD) == entries * bound + entries * POST_RECORD_OVERHEAD;
  }

  lemma BoundedPathLengths(tree: Tree, bound: nat)
    requires forall path | path in TreePaths(tree) :: |path| <= bound
    ensures PathLengths(TreePaths(tree)) <= (1 + |tree.posts| + |tree.assets|) * bound
  {
    PathLengthsBound(TreePaths(tree), bound);
    SameFactor(|TreePaths(tree)|, 1 + |tree.posts| + |tree.assets|, bound);
  }

  lemma AcceptedPathLengths(tree: Tree, limits: Limits)
    requires Acceptable(tree, limits)
    ensures PathLengths(TreePaths(tree)) <= (1 + |tree.posts| + |tree.assets|) * limits.pathBytes
  {
    AcceptedPathsBounded(tree, limits);
    BoundedPathLengths(tree, limits.pathBytes);
  }

  lemma SameFactor(a: nat, b: nat, factor: nat)
    requires a == b
    ensures a * factor == b * factor
  {
  }

  lemma AcceptedSizes(tree: Tree, limits: Limits)
    requires Acceptable(tree, limits)
    ensures ARCHIVE_HEADER_BYTES + SEQUENCE_LENGTH_BYTES * 2 + PUBLICATION_RECORD_OVERHEAD
            + |tree.posts| * POST_RECORD_OVERHEAD + |tree.assets| * ASSET_RECORD_OVERHEAD
            + PathLengths(TreePaths(tree)) + FileBytes(tree) <= ExactMaximum(limits)
  {
    AcceptedPathLengths(tree, limits);
    var paths := PathLengths(TreePaths(tree));
    EntriesArithmetic(|tree.posts|, |tree.assets|, limits.entries, limits.pathBytes, paths);
  }

  /** The archive of an accepted tree is never longer than the exact bound. */
  lemma ArchiveWithinExactMaximum(digest: Digest, tree: Tree, limits: Limits)
    requires ValidateTree(tree, limits).Pass?
    ensures |Archive(digest, tree)| <= ExactMaximum(limits)
  {
    ValidatesExactlyAcceptable(tree, limits);
    AcceptedSizes(tree, limits);
    ArchiveLength(digest, tree);
  }

  lemma ProductsAreMonotone(a: nat, b: nat, x: nat, y: nat)
    requires a <= x && b <= y
    ensures a * b <= x * y
  {
    assert (x - a) * b >= 0 && x * (y - b) >= 0;
    assert x * b == a * b + (x - a) * b && x * y == x * b + x * (y - b);
  }

  /** The 128-bit arithmetic wraps at most once. */
  lemma MaximumWrapsAtMostOnce(limits: Limits)
    ensures ExactMaximum(limits) < 2 * U128_RANGE
  {
    ProductsAreMonotone(limits.entries, limits.pathBytes + POST_RECORD_OVERHEAD, U64_RANGE - 1, U64_RANGE + 12);
  }

  lemma Remainder(value: nat, range: nat)
    requires value < 2 * range
    ensures value % range == if value < range then value else value - range
  {
    if value >= range {
      assert value == 1 * range + (value - range);
    }
  }

  /** The exact condition of the size check: the bound does not wrap, or the archive is no longer
      than what is left of it. */
  predicate BoundAdmits(archiveBytes: nat, limits: Limits) {
    ExactMaximum(limits) < U128_RANGE || archiveBytes <= ExactMaximum(limits) - U128_RANGE
  }

  /** `load` passes the archive of an accepted tree on size exactly when the wrapped bound admits it. */
  lemma WrittenArchivesPassTheSizeCheck(digest: Digest, tree: Tree, limits: Limits)
    requires ValidateTree(tree, limits).Pass?
    ensures SizeAdmitted(|Archive(digest, tree)|, limits) <==> BoundAdmits(|Archive(digest, tree)|, limits)
  {
    MaximumWrapsAtMostOnce(limits);
    Remainder(ExactMaximum(limits), U128_RANGE);
    ArchiveWithinExactMaximum(digest, tree, limits);
  }

  // The limits a host can be configured with.

  const DEFAULT_LIMITS := Limits(0x4_0000, 0x40_0000, 0x200_0000, 0x1000_0000, 10_000, 16, 1_024)

  predicate Within(limits: Limits, bounds: Limits) {
    && limits.publicationFileBytes <= bounds.publicationFileBytes && limits.postFileBytes <= bounds.postFileBytes
    && limits.assetFileBytes <= bounds.assetFileBytes && limits.totalTreeBytes <= bounds.totalTreeBytes
    && limits.entries <= bounds.entries && limits.depth <= bounds.depth && limits.pathBytes <= bounds.pathBytes
  }

  lemma DefaultMaximum(limits: Limits)
    requires Within(limits, DEFAULT_LIMITS)
    ensures ExactMaximum(limits) < U32_RANGE
  {
    ProductsAreMonotone(limits.entries, limits.pathBytes + POST_RECORD_OVERHEAD, 10_000, 1_037);
  }

  /** Under limits up to the defaults every accepted tree can be written, sized and read back, and
      the size check admits its archive. */
  lemma DefaultsAdmitEveryAcceptedTree(tree: Tree, limits: Limits, hash: Hash)
    requires ValidateTree(tree, limits).Pass? && Within(limits, DEFAULT_LIMITS)
    ensures var digest := TreeDigest(tree, hash);
            var archive := Archive(digest, tree);
            && Writable(tree) && EncodedCandidateBytes(tree) == Ok(|archive|) && SizeAdmitted(|archive|, limits)
            && Decode(archive, |archive|, digest, limits, hash) == Ok(Canonical(tree))
  {
    var digest := TreeDigest(tree, hash);
    DefaultMaximum(limits);
    ValidatesExactlyAcceptable(tree, limits);
    AcceptedIsWritable(tree, limits);
    ArchiveWithinExactMaximum(digest, tree, limits);
    WrittenArchivesPassTheSizeCheck(digest, tree, limits);
    ReservedSizeIsExact(digest, tree);
    ArchiveRoundTrip(tree, limits, hash);
  }

  lemma {:induction false} PathLengthsCover(paths: seq<Bytes>, path: Bytes)
    requires path in paths
    ensures |path| <= PathLengths(paths)
  {
    if path != paths[0] {
      assert paths == [paths[0]] + paths[1..];
      PathLengthsCover(paths[1..], path);
    }
  }

  /** Whatever the limits, an accepted tree whose archive fits a capacity below 4 GiB can be written:
      the default capacity of 1 GiB refuses long paths before the encoder meets them. */
  lemma ReservableTreesAreWritable(tree: Tree, limits: Limits)
    requires ValidateTree(tree, limits).Pass?
    requires EncodedCandidateBytes(tree).Ok? && EncodedCandidateBytes(tree).value < U32_RANGE
    ensures Writable(tree)
  {
    var digest: Digest := seq(32, i => 0);
    ValidatesExactlyAcceptable(tree, limits);
    ReservedSizeIsExact(digest, tree);
    ArchiveLength(digest, tree);
    forall path | path in TreePaths(tree) ensures WritablePath(path) {
      PathLengthsCover(TreePaths(tree), path);
    }
    AcceptedIsWritable(tree, limits);
  }

  // The bound wraps for two limits near 2^64; then even a small archive can exceed it.

  const WRAPPING_LIMITS := Limits(1, 1, 1, 1, U64_RANGE - 1, 1, U64_RANGE - 12)

  function SmallestTree(): Tree {
    var toml := Ascii("publication.toml");
    AsciiIsUtf8(toml);
    Tree(Publication(toml, []), [], [], 0)
  }

  lemma WrappedMaximum()
    ensures ExactMaximum(WRAPPING_LIMITS) == U128_RANGE + 79
    ensures MaximumArchiveBytes(WRAPPING_LIMITS) == 79
  {
    var product := 0xFFFF_FFFF_FFFF_FFFF * 0x1_0000_0000_0000_0001;
    assert product == U128_RANGE - 1;
    assert WRAPPING_LIMITS.entries == 0xFFFF_FFFF_FFFF_FFFF;
    assert WRAPPING_LIMITS.pathBytes + POST_RECORD_OVERHEAD == 0x1_0000_0000_0000_0001;
  }

  /** With these limits the bound wraps to less than the length of the smallest accepted archive. */
  lemma WrappedBoundRejectsAnAcceptedTree(digest: Digest)
    ensures ExactMaximum(WRAPPING_LIMITS) >= U128_RANGE
    ensures ValidateTree(SmallestTree(), WRAPPING_LIMITS).Pass? && Writable(SmallestTree())
    ensures !SizeAdmitted(|Archive(digest, SmallestTree())|, WRAPPING_LIMITS)
  {
    WrappedMaximum();
    SmallestTreeIsAccepted();
    SmallestArchive(digest);
  }

  lemma SmallestTreePaths()
    ensures TreePaths(SmallestTree()) == [Ascii("publication.toml")] && Compatible(TreePaths(SmallestTree()))
    ensures PathLengths(TreePaths(SmallestTree())) == 16
  {
    var toml := Ascii("publication.toml");
    TomlIsPortable();
    SelfAgrees(toml);
    assert TreePaths(SmallestTree()) == [toml];
    assert PathLengths([toml]) == |toml| + PathLengths([]);
  }

  lemma SmallestTreeIsAccepted()
    ensures ValidateTree(SmallestTree(), WRAPPING_LIMITS).Pass? && Writable(SmallestTree())
  {
    TomlIsPortable();
    SmallestTreePaths();
    ValidatesExactlyAcceptable(SmallestTree(), WRAPPING_LIMITS);
  }

  lemma SmallestArchive(digest: Digest)
    ensures |Archive(digest, SmallestTree())| == 95
  {
    SmallestTreePaths();
    ArchiveLength(digest, SmallestTree());
  }

  // A path limit of 4 GiB or more accepts paths that the archive's 32-bit length cannot hold.

  function LetterRun(length: nat): (letters: Bytes)
    ensures |letters| == length && forall b | b in letters :: b == 97
  {
    seq(length, i => 97)
  }

  lemma {:induction false} ComponentsOfRun(letters: Bytes)
    requires SLASH !in letters
    ensures Components(letters) == [letters]
  {
    if letters != [] {
      ComponentsOfRun(letters[1..]);
      assert letters == [letters[0]] + letters[1..];
    }
  }

  lemma {:induction false} ComponentsOfPair(head: Bytes, tail: Bytes)
    requires SLASH !in head && SLASH !in tail
    ensures Components(head + [SLASH] + tail) == [head, tail]
  {
    var path := head + [SLASH] + tail;
    if head == [] {
      assert path[0] == SLASH && path[1..] == tail;
      ComponentsOfRun(tail);
    } else {
      assert path[1..] == head[1..] + [SLASH] + tail;
      ComponentsOfPair(head[1..], tail);
      assert head == [head[0]] + head[1..];
    }
  }

  lemma {:induction false} AsciiIsUtf8(bytes: Bytes)
    requires forall b | b in bytes :: b < 128
    ensures Utf8(bytes)
  {
    if bytes != [] {
      assert bytes[0] in bytes && forall b | b in bytes[1..] :: b in bytes;
      AsciiIsUtf8(bytes[1..]);
    }
  }

  function LongAssetPath(run: nat): (path: Str)
    requires run > 2
    ensures |path| == run + 7 && PortablePath(path) && AssetNamespace(path) && |Components(path)| == 2
    ensures path[0] == 97
  {
    var head, tail := Ascii("assets"), LetterRun(run);
    AssetsIsPortable();
    ComponentsOfPair(head, tail);
    AsciiIsUtf8(head + [SLASH] + tail);
    head + [SLASH] + tail
  }

  lemma AssetsIsPortable()
    ensures var head := Ascii("assets");
            |head| == 6 && head[0] == 97 && (forall b | b in head :: PortableByte(b) && b < 128 && b != SLASH)
  {
  }

  /** A publication file and one empty asset whose file name is `run` letters long. */
  function LongPathTree(run: nat): Tree
    requires run > 2
  {
    var toml := Ascii("publication.toml");
    AsciiIsUtf8(toml);
    Tree(Publication(toml, []), [], [Asset(LongAssetPath(run), [])], 0)
  }

  lemma TomlBytes()
    ensures |Ascii("publication.toml")| == 16
    ensures forall b | b in Ascii("publication.toml") :: PortableByte(b)
  {
  }

  lemma TomlIsPortable()
    ensures PortablePath(Ascii("publication.toml")) && |Components(Ascii("publication.toml"))| == 1
    ensures |Ascii("publication.toml")| == 16
  {
    var toml := Ascii("publication.toml");
    TomlBytes();
    TomlInitial();
    ComponentsOfRun(toml);
    PortableRun(toml);
  }

  lemma PortableRun(path: Bytes)
    requires |path| > 2 && forall b | b in path :: PortableByte(b)
    requires Components(path) == [path]
    ensures PortablePath(path)
  {
    assert path[0] in path;
  }

  lemma TomlInitial()
    ensures Ascii("publication.toml") != [] && Ascii("publication.toml")[0] == 112
  {
    assert "publication.toml"[0] == 'p';
  }

  lemma LongPathsCompatible(run: nat)
    requires run > 2
    ensures Compatible(TreePaths(LongPathTree(run))) && FileBytes(LongPathTree(run)) == 0
  {
    var toml, long := Ascii("publication.toml"), LongAssetPath(run);
    TomlInitial();
    assert TreePaths(LongPathTree(run)) == [toml, long];
    TwoPathsCompatible(toml, long);
    var assets := LongPathTree(run).assets;
    assert assets[1..] == [] && AssetBytes(assets) == 0 + AssetBytes([]);
  }

  lemma LongPathsFit(run: nat, limits: Limits)
    requires U32_RANGE <= run + 7 <= limits.pathBytes && limits.entries >= 2 && limits.depth >= 2
    ensures EachFits(LongPathTree(run), limits)
  {
    TomlIsPortable();
    LongPathPasses(run, limits);
    assert ValidatePublicationPath(Ascii("publication.toml"), limits).Pass?;
    assert LongPathTree(run).assets == [Asset(LongAssetPath(run), [])];
  }

  lemma LongPathPasses(run: nat, limits: Limits)
    requires U32_RANGE <= run + 7 <= limits.pathBytes && limits.depth >= 2
    ensures ValidateAssetPath(LongAssetPath(run), limits).Pass?
  {
  }

  /** Whenever the limits admit a path of 2^32 bytes, validation accepts a tree whose archive
      cannot be written. */
  lemma AcceptedTreeThatCannotBeArchived(run: nat, limits: Limits)
    requires U32_RANGE <= run + 7 <= limits.pathBytes && limits.entries >= 2 && limits.depth >= 2
    ensures ValidateTree(LongPathTree(run), limits).Pass?
    ensures !Writable(LongPathTree(run))
  {
    var tree := LongPathTree(run);
    LongPathsCompatible(run);
    LongPathsFit(run, limits);
    ValidatesExactlyAcceptable(tree, limits);
    assert tree.assets[0] in tree.assets && !WritableAsset(tree.assets[0]);
  }

  lemma PrefixesFoldApart(left: Bytes, right: Bytes, p: Bytes, q: Bytes)
    requires left != [] && right != [] && 97 <= left[0] <= 122 && 97 <= right[0] <= 122 && left[0] != right[0]
    requires IsPrefix(p, left) && IsPrefix(q, right)
    ensures Lowercase(p) != Lowercase(q)
  {
    assert p != [] && q != [];
    assert Lowercase(p)[0] == left[0] && Lowercase(q)[0] == right[0];
  }

  lemma TwoPathsCompatible(left: Bytes, right: Bytes)
    requires left != [] && right != [] && 97 <= left[0] <= 122 && 97 <= right[0] <= 122 && left[0] != right[0]
    ensures Compatible([left, right])
  {
    SelfAgrees(left);
    SelfAgrees(right);
    forall p, q | IsPrefix(p, left) && IsPrefix(q, right) ensures Lowercase(p) != Lowercase(q) {
      PrefixesFoldApart(left, right, p, q);
    }
    assert Agree(left, right) && Agree(right, left);
    assert left != right;
  }

  /** An accepted tree survives archiving and reading back exactly when its paths fit 32-bit
      lengths and its archive fits 64 bits. */
  lemma RetainableExactlyWhenWritable(tree: Tree, limits: Limits, hash: Hash)
    requires ValidateTree(tree, limits).Pass?
    ensures EncodedCandidateBytes(tree).Ok? <==> |Archive(TreeDigest(tree, hash), tree)| < U64_RANGE
    ensures RoundTrips(tree, limits, hash) <==> Writable(tree) && EncodedCandidateBytes(tree).Ok?
    ensures Writable(tree) <==> forall path | path in TreePaths(tree) :: WritablePath(path)
  {
    var digest := TreeDigest(tree, hash);
    ValidatesExactlyAcceptable(tree, limits);
    AcceptedIsWritable(tree, limits);
    ReservedSizeIsExact(digest, tree);
    if RoundTrips(tree, limits, hash) {
      var archive := Archive(digest, tree);
      DecodesExactlyArchives(archive, |archive|, digest, limits, hash, Canonical(tree));
      CanonicalIdempotent(tree);
      WritableIsUnordered(tree);
    }
    if Writable(tree) && EncodedCandidateBytes(tree).Ok? {
      ArchiveRoundTrip(tree, limits, hash);
    }
  }

  /** The archive of the tree is one that decoding reads back as the canonical tree. */
  ghost predicate RoundTrips(tree: Tree, limits: Limits, hash: Hash) {
    var digest := TreeDigest(tree, hash);
    var archive := Archive(digest, tree);
    |archive| < U64_RANGE && Decode(archive, |archive|, digest, limits, hash) == Ok(Canonical(tree))
  }
}
