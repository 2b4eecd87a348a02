/** The candidate archive: what the encoder writes and how long it is. */
module ArchiveFormat {
  import opened Framing
  import opened Ordering
  import opened Content
  import opened Transcripts

  const ARCHIVE_MAGIC: Bytes := Ascii("MAINCOPYCANDIDATE")
  const ARCHIVE_VERSION := 1
  const ARCHIVE_HEADER_BYTES := 17 + 2 + 32 + 8
  const PUBLICATION_RECORD_OVERHEAD := 4 + 8
  const POST_RECORD_OVERHEAD := 1 + 4 + 8
  const ASSET_RECORD_OVERHEAD := 4 + 8
  const SEQUENCE_LENGTH_BYTES := 4

  function PathField(path: Bytes): Bytes {
    U32(|path|) + path
  }

  function PostRecord(post: Post): Bytes {
    [post.collection.Tag()] + (PathField(post.path) + Frame(post.source))
  }

  function AssetRecord(asset: Asset): Bytes {
    PathField(asset.path) + Frame(asset.bytes)
  }

  function PublicationRecord(publication: Publication): Bytes {
    PathField(publication.path) + Frame(publication.source)
  }

  function ArchiveHeader(digest: Digest, total: nat): Bytes {
    ARCHIVE_MAGIC + BigEndian(2, ARCHIVE_VERSION) + digest + U64(total)
  }

  function PostsSection(posts: seq<Post>): Bytes {
    U32(|posts|) + Concat(PostRecord, posts)
  }

  function AssetsSection(assets: seq<Asset>): Bytes {
    U32(|assets|) + Concat(AssetRecord, assets)
  }

  /** The archive bytes of a tree, with its records in canonical order. */
  function Archive(digest: Digest, tree: Tree): Bytes {
    ArchiveHeader(digest, tree.totalBytes) + PublicationRecord(tree.publication)
    + PostsSection(Canonical(tree).posts) + AssetsSection(Canonical(tree).assets)
  }

  predicate WritablePath(path: Bytes) {
    |path| < U32_RANGE
  }

  predicate WritablePublication(publication: Publication) {
    WritablePath(publication.path) && |publication.source| < U64_RANGE
  }

  predicate WritablePost(post: Post) {
    WritablePath(post.path) && |post.source| < U64_RANGE
  }

  predicate WritableAsset(asset: Asset) {
    WritablePath(asset.path) && |asset.bytes| < U64_RANGE
  }

  /** Every length field of the tree's archive can be written. */
  predicate Writable(tree: Tree) {
    && WritablePublication(tree.publication)
    && |tree.posts| < U32_RANGE && |tree.assets| < U32_RANGE
    && (forall post | post in tree.posts :: WritablePost(post))
    && (forall asset | asset in tree.assets :: WritableAsset(asset))
  }

  lemma WritableIsUnordered(tree: Tree)
    ensures Writable(Canonical(tree)) <==> Writable(tree)
  {
    SortPermutes(PostLeq, tree.posts);
    SortPermutes(AssetLeq, tree.assets);
  }

  /** The writer of one archive file: everything written so far. */
  class ArchiveWriter {
    var written: Bytes

    constructor ()
      ensures written == []
    {
      written := [];
    }

    method WriteAll(bytes: Bytes)
      modifies this
      ensures written == old(written) + bytes
    {
      written := written + bytes;
    }

    method WriteU32(value: nat) returns (outcome: Outcome)
      modifies this
      ensures outcome == Need(value < U32_RANGE, LimitExceeded)
      ensures written == if outcome.Pass? then old(written) + U32(value) else old(written)
    {
      if value >= U32_RANGE {
        return Fail(LimitExceeded);
      }
      WriteAll(U32(value));
      return Pass;
    }

    method WriteString(path: Bytes) returns (outcome: Outcome)
      modifies this
      ensures outcome == Need(WritablePath(path), LimitExceeded)
      ensures written == if outcome.Pass? then old(written) + PathField(path) else old(written)
    {
      if |path| >= U32_RANGE {
        return Fail(LimitExceeded);
      }
      WriteAll(U32(|path|));
      WriteAll(path);
      return Pass;
    }

    method WriteBytes(bytes: Bytes) returns (outcome: Outcome)
      modifies this
      ensures outcome == Need(|bytes| < U64_RANGE, LimitExceeded)
      ensures written == if outcome.Pass? then old(written) + Frame(bytes) else old(written)
    {
      if |bytes| >= U64_RANGE {
        return Fail(LimitExceeded);
      }
      WriteAll(U64(|bytes|));
      WriteAll(bytes);
      return Pass;
    }

    method WriteEntry(path: Bytes, bytes: Bytes) returns (outcome: Outcome)
      modifies this
      ensures outcome == Need(WritablePath(path) && |bytes| < U64_RANGE, LimitExceeded)
      ensures outcome.Pass? ==> written == old(written) + (PathField(path) + Frame(bytes))
      ensures old(written) <= written <= old(written) + (PathField(path) + Frame(bytes))
    {
      outcome := WriteString(path);
      if outcome.Fail? {
        return;
      }
      outcome := WriteBytes(bytes);
      Associate(old(written), PathField(path), Frame(bytes));
    }

    method WritePost(post: Post) returns (outcome: Outcome)
      modifies this
      ensures outcome == Need(WritablePost(post), LimitExceeded)
      ensures outcome.Pass? ==> written == old(written) + PostRecord(post)
      ensures old(written) <= written <= old(written) + PostRecord(post)
    {
      WriteAll([post.collection.Tag()]);
      Associate(old(written), [post.collection.Tag()], PathField(post.path) + Frame(post.source));
      outcome := WriteEntry(post.path, post.source);
    }

    method WriteAsset(asset: Asset) returns (outcome: Outcome)
      modifies this
      ensures outcome == Need(WritableAsset(asset), LimitExceeded)
      ensures outcome.Pass? ==> written == old(written) + AssetRecord(asset)
      ensures old(written) <= written <= old(written) + AssetRecord(asset)
    {
      outcome := WriteEntry(asset.path, asset.bytes);
    }

    method WritePostRecords(posts: seq<Post>) returns (outcome: Outcome)
      modifies this
      ensures outcome == Need(forall post | post in posts :: WritablePost(post), LimitExceeded)
      ensures outcome.Pass? ==> written == old(written) + Concat(PostRecord, posts)
      ensures old(written) <= written <= old(written) + Concat(PostRecord, posts)
    {
      ghost var start := written;
      for i := 0 to |posts|
        invariant EachWritable(WritablePost, posts[..i])
        invariant written == start + Concat(PostRecord, posts[..i])
      {
        ghost var before := written;
        outcome := WritePost(posts[i]);
        PartialRecords(start, PostRecord, posts, i, before, written);
        if outcome.Fail? {
          return;
        }
        WritableOneMore(WritablePost, posts, i);
        RecordWritten(start, PostRecord, posts, i);
      }
      assert posts[..|posts|] == posts;
      return Pass;
    }

    method WritePosts(posts: seq<Post>) returns (outcome: Outcome)
      modifies this
      ensures outcome == Need(|posts| < U32_RANGE && forall post | post in posts :: WritablePost(post), LimitExceeded)
      ensures outcome.Pass? ==> written == old(written) + PostsSection(posts)
      ensures old(written) <= written <= old(written) + PostsSection(posts)
    {
      outcome := WriteU32(|posts|);
      if outcome.Pass? {
        outcome := WritePostRecords(posts);
        Associate(old(written), U32(|posts|), Concat(PostRecord, posts));
      }
    }

    method WriteAssetRecords(assets: seq<Asset>) returns (outcome: Outcome)
      modifies this
      ensures outcome == Need(forall asset | asset in assets :: WritableAsset(asset), LimitExceeded)
      ensures outcome.Pass? ==> written == old(written) + Concat(AssetRecord, assets)
      ensures old(written) <= written <= old(written) + Concat(AssetRecord, assets)
    {
      ghost var start := written;
      for i := 0 to |assets|
        invariant EachWritable(WritableAsset, assets[..i])
        invariant written == start + Concat(AssetRecord, assets[..i])
      {
        ghost var before := written;
        outcome := WriteAsset(assets[i]);
        PartialRecords(start, AssetRecord, assets, i, before, written);
        if outcome.Fail? {
          return;
        }
        WritableOneMore(WritableAsset, assets, i);
        RecordWritten(start, AssetRecord, assets, i);
      }
      assert assets[..|assets|] == assets;
      return Pass;
    }

    method WriteAssets(assets: seq<Asset>) returns (outcome: Outcome)
      modifies this
      ensures outcome == Need(|assets| < U32_RANGE && forall asset | asset in assets :: WritableAsset(asset),
                              LimitExceeded)
      ensures outcome.Pass? ==> written == old(written) + AssetsSection(assets)
      ensures old(written) <= written <= old(written) + AssetsSection(assets)
    {
      outcome := WriteU32(|assets|);
      if outcome.Pass? {
        outcome := WriteAssetRecords(assets);
        Associate(old(written), U32(|assets|), Concat(AssetRecord, assets));
      }
    }

    method WriteSections(posts: seq<Post>, assets: seq<Asset>) returns (outcome: Outcome)
      modifies this
      ensures outcome.Pass? <==>
              && |posts| < U32_RANGE && (forall post | post in posts :: WritablePost(post))
              && |assets| < U32_RANGE && (forall asset | asset in assets :: WritableAsset(asset))
      ensures outcome.Fail? ==> outcome == Fail(LimitExceeded)
      ensures outcome.Pass? ==> written == old(written) + (PostsSection(posts) + AssetsSection(assets))
      ensures old(written) <= written <= old(written) + (PostsSection(posts) + AssetsSection(assets))
    {
      outcome := WritePosts(posts);
      Associate(old(written), PostsSection(posts), AssetsSection(assets));
      if outcome.Pass? {
        outcome := WriteAssets(assets);
      }
    }

    method WriteHeader(digest: Digest, total: u64)
      modifies this
      ensures written == old(written) + ArchiveHeader(digest, total)
    {
      WriteAll(ARCHIVE_MAGIC);
      WriteAll(BigEndian(2, ARCHIVE_VERSION));
      WriteAll(digest);
      WriteAll(U64(total));
      HeaderGroups(old(written), digest, total);
    }

    /** Writes the whole archive, or stops at the first length that does not fit its field. */
    method EncodeCandidate(digest: Digest, tree: Tree) returns (outcome: Outcome)
      modifies this
      ensures outcome == Need(Writable(tree), LimitExceeded)
      ensures outcome.Pass? ==> written == old(written) + Archive(digest, tree)
      ensures old(written) <= written <= old(written) + Archive(digest, tree)
    {
      WritableIsUnordered(tree);
      ghost var start := written;
      WriteHeader(digest, tree.totalBytes);
      ghost var header := ArchiveHeader(digest, tree.totalBytes);
      var posts, assets := Sort(PostLeq, tree.posts), Sort(AssetLeq, tree.assets);
      ArchiveExtends(start, header, PublicationRecord(tree.publication), PostsSection(posts), AssetsSection(assets));
      outcome := WriteEntry(tree.publication.path, tree.publication.source);
      if outcome.Pass? {
        outcome := WriteSections(posts, assets);
      }
    }
  }

  /** Whole records before `i` and part of record `i` are a prefix of all the records. */
  lemma PartialRecords<T>(start: Bytes, code: T -> Bytes, records: seq<T>, i: nat, before: Bytes, written: Bytes)
    requires i < |records| && before == start + Concat(code, records[..i])
    requires written <= before + code(records[i])
    ensures written <= start + Concat(code, records)
  {
    ConcatTake(code, records, i);
    Associate(start, Concat(code, records[..i]), code(records[i]));
    ConcatOfTake(code, records, i + 1);
    Associate(start, Concat(code, records[..i + 1]), Concat(code, records[i + 1..]));
  }

  ghost predicate EachWritable<T>(writable: T -> bool, records: seq<T>) {
    forall record | record in records :: writable(record)
  }

  lemma WritableOneMore<T>(writable: T -> bool, records: seq<T>, i: nat)
    requires i < |records| && EachWritable(writable, records[..i]) && writable(records[i])
    ensures EachWritable(writable, records[..i + 1])
  {
    assert records[..i + 1] == records[..i] + [records[i]];
  }

  lemma RecordWritten<T>(start: Bytes, code: T -> Bytes, records: seq<T>, i: nat)
    requires i < |records|
    ensures start + Concat(code, records[..i]) + code(records[i]) == start + Concat(code, records[..i + 1])
  {
    ConcatTake(code, records, i);
    Associate(start, Concat(code, records[..i]), code(records[i]));
  }

  lemma {:induction false} ConcatOfTake<T>(code: T -> Bytes, records: seq<T>, i: nat)
    requires i <= |records|
    ensures Concat(code, records) == Concat(code, records[..i]) + Concat(code, records[i..])
    decreases |records| - i
  {
    if i == |records| {
      assert records[..i] == records;
    } else {
      ConcatOfTake(code, records, i + 1);
      ConcatTake(code, records, i);
      assert records[i..][1..] == records[i + 1..];
      Associate(Concat(code, records[..i]), code(records[i]), Concat(code, records[i + 1..]));
    }
  }

  lemma ArchiveExtends(start: Bytes, header: Bytes, a: Bytes, b: Bytes, c: Bytes)
    ensures start + header + a + (b + c) == start + (header + a + b + c)
    ensures start + header + a <= start + (header + a + b + c)
  {
    Associate(header + a, b, c);
    Associate(start, header, a);
    Associate(start, header + a, b + c);
  }

  lemma HeaderGroups(start: Bytes, digest: Digest, total: nat)
    ensures start + ARCHIVE_MAGIC + BigEndian(2, ARCHIVE_VERSION) + digest + U64(total)
         == start + ArchiveHeader(digest, total)
  {
    var magic, version := ARCHIVE_MAGIC, BigEndian(2, ARCHIVE_VERSION);
    Associate4(start, magic, version, digest);
    Associate4(magic, version, digest, U64(total));
    Associate(magic, version, digest);
    Associate(start, magic + version + digest, U64(total));
  }

  // Sizes.

  function PathLengths(paths: seq<Bytes>): nat {
    if paths == [] then 0 else |paths[0]| + PathLengths(paths[1..])
  }

  function PostPath(post: Post): Bytes {
    post.path
  }

  function AssetPath(asset: Asset): Bytes {
    asset.path
  }

  function TreePaths(tree: Tree): seq<Bytes> {
    [tree.publication.path]
    + Map(PostPath, tree.posts)
    + Map(AssetPath, tree.assets)
  }

  function CheckedAdd(left: Result<nat>, right: nat): Result<nat> {
    if left.Err? then left
    else if right >= U64_RANGE || left.value + right >= U64_RANGE then Err(LimitExceeded)
    else Ok(left.value + right)
  }

  function CheckedSum(total: Result<nat>, paths: seq<Bytes>): Result<nat>
    decreases |paths|
  {
    if paths == [] then total else CheckedSum(CheckedAdd(total, |paths[0]|), paths[1..])
  }

  /** The size the store reserves for a tree before writing it, in checked 64-bit arithmetic. */
  function EncodedCandidateBytes(tree: Tree): Result<nat> {
    if |tree.posts| >= U64_RANGE || |tree.assets| >= U64_RANGE then Err(LimitExceeded)
    else
      var pathBytes :- CheckedSum(Ok(0), TreePaths(tree));
      var fixed := ARCHIVE_HEADER_BYTES + SEQUENCE_LENGTH_BYTES * 2 + PUBLICATION_RECORD_OVERHEAD;
      CheckedAdd(CheckedAdd(CheckedAdd(CheckedAdd(Ok(fixed), |tree.posts| * POST_RECORD_OVERHEAD),
                                       |tree.assets| * ASSET_RECORD_OVERHEAD), pathBytes), tree.totalBytes)
  }

  function FileBytes(tree: Tree): nat {
    |tree.publication.source| + PostBytes(tree.posts) + AssetBytes(tree.assets)
  }

  function PostBytes(posts: seq<Post>): nat {
    if posts == [] then 0 else |posts[0].source| + PostBytes(posts[1..])
  }

  function AssetBytes(assets: seq<Asset>): nat {
    if assets == [] then 0 else |assets[0].bytes| + AssetBytes(assets[1..])
  }

  function PostPathBytes(posts: seq<Post>): nat {
    if posts == [] then 0 else |posts[0].path| + PostPathBytes(posts[1..])
  }

  function AssetPathBytes(assets: seq<Asset>): nat {
    if assets == [] then 0 else |assets[0].path| + AssetPathBytes(assets[1..])
  }

  lemma {:induction false} PathLengthsAppend(a: seq<Bytes>, b: seq<Bytes>)
    ensures PathLengths(a + b) == PathLengths(a) + PathLengths(b)
  {
    if a == [] {
      assert a + b == b;
    } else {
      assert (a + b)[1..] == a[1..] + b;
      PathLengthsAppend(a[1..], b);
    }
  }

  lemma {:induction false} PathLengthsOfPosts(posts: seq<Post>)
    ensures PathLengths(Map(PostPath, posts)) == PostPathBytes(posts)
  {
    if posts != [] {
      PathLengthsOfPosts(posts[1..]);
      assert Map(PostPath, posts)[1..] == Map(PostPath, posts[1..]);
    }
  }

  lemma {:induction false} PathLengthsOfAssets(assets: seq<Asset>)
    ensures PathLengths(Map(AssetPath, assets)) == AssetPathBytes(assets)
  {
    if assets != [] {
      PathLengthsOfAssets(assets[1..]);
      assert Map(AssetPath, assets)[1..]
          == Map(AssetPath, assets[1..]);
    }
  }

  lemma {:induction false} CheckedSumIsExact(total: Result<nat>, paths: seq<Bytes>)
    requires total.Ok? ==> total.value < U64_RANGE
    ensures CheckedSum(total, paths) ==
            if total.Err? then total
            else if total.value + PathLengths(paths) < U64_RANGE then Ok(total.value + PathLengths(paths))
            else Err(LimitExceeded)
    decreases |paths|
  {
    if paths != [] {
      CheckedSumIsExact(CheckedAdd(total, |paths[0]|), paths[1..]);
    }
  }

  lemma {:induction false} PostRecordsLength(posts: seq<Post>)
    ensures |Concat(PostRecord, posts)| == |posts| * POST_RECORD_OVERHEAD + PostPathBytes(posts) + PostBytes(posts)
  {
    if posts != [] {
      PostRecordsLength(posts[1..]);
    }
  }

  lemma {:induction false} AssetRecordsLength(assets: seq<Asset>)
    ensures |Concat(AssetRecord, assets)|
            == |assets| * ASSET_RECORD_OVERHEAD + AssetPathBytes(assets) + AssetBytes(assets)
  {
    if assets != [] {
      AssetRecordsLength(assets[1..]);
    }
  }

  lemma {:induction false} PostSumsAreUnordered(left: seq<Post>, right: seq<Post>)
    requires multiset(left) == multiset(right)
    ensures PostBytes(left) == PostBytes(right) && PostPathBytes(left) == PostPathBytes(right)
  {
    SameMembers(left, right);
    if left != [] {
      assert left[0] in right;
      var k :| 0 <= k < |right| && right[k] == left[0];
      WithoutSame(left, right, 0, k);
      assert Without(left, 0) == left[1..];
      PostSumsAreUnordered(left[1..], Without(right, k));
      PostSumsWithout(right, k);
    }
  }

  lemma {:induction false} PostSumsWithout(posts: seq<Post>, k: nat)
    requires k < |posts|
    ensures PostBytes(posts) == |posts[k].source| + PostBytes(Without(posts, k))
    ensures PostPathBytes(posts) == |posts[k].path| + PostPathBytes(Without(posts, k))
  {
    if k > 0 {
      PostSumsWithout(posts[1..], k - 1);
      assert Without(posts, k)[1..] == Without(posts[1..], k - 1);
    } else {
      assert Without(posts, 0) == posts[1..];
    }
  }

  lemma {:induction false} AssetSumsAreUnordered(left: seq<Asset>, right: seq<Asset>)
    requires multiset(left) == multiset(right)
    ensures AssetBytes(left) == AssetBytes(right) && AssetPathBytes(left) == AssetPathBytes(right)
  {
    SameMembers(left, right);
    if left != [] {
      assert left[0] in right;
      var k :| 0 <= k < |right| && right[k] == left[0];
      WithoutSame(left, right, 0, k);
      assert Without(left, 0) == left[1..];
      AssetSumsAreUnordered(left[1..], Without(right, k));
      AssetSumsWithout(right, k);
    }
  }

  lemma {:induction false} AssetSumsWithout(assets: seq<Asset>, k: nat)
    requires k < |assets|
    ensures AssetBytes(assets) == |assets[k].bytes| + AssetBytes(Without(assets, k))
    ensures AssetPathBytes(assets) == |assets[k].path| + AssetPathBytes(Without(assets, k))
  {
    if k > 0 {
      AssetSumsWithout(assets[1..], k - 1);
      assert Without(assets, k)[1..] == Without(assets[1..], k - 1);
    } else {
      assert Without(assets, 0) == assets[1..];
    }
  }

  lemma ArchiveLength(digest: Digest, tree: Tree)
    ensures |Archive(digest, tree)| ==
            ARCHIVE_HEADER_BYTES + SEQUENCE_LENGTH_BYTES * 2 + PUBLICATION_RECORD_OVERHEAD
            + |tree.posts| * POST_RECORD_OVERHEAD + |tree.assets| * ASSET_RECORD_OVERHEAD
            + PathLengths(TreePaths(tree)) + FileBytes(tree)
  {
    var sorted := Canonical(tree);
    CanonicalIdempotent(tree);
    SameMembers(sorted.posts, tree.posts);
    SameMembers(sorted.assets, tree.assets);
    PostRecordsLength(sorted.posts);
    AssetRecordsLength(sorted.assets);
    PostSumsAreUnordered(sorted.posts, tree.posts);
    AssetSumsAreUnordered(sorted.assets, tree.assets);
    PathLengthsOfPosts(tree.posts);
    PathLengthsOfAssets(tree.assets);
    var posts := Map(PostPath, tree.posts);
    var assets := Map(AssetPath, tree.assets);
    PathLengthsAppend([tree.publication.path], posts);
    PathLengthsAppend([tree.publication.path] + posts, assets);
    assert PathLengths([tree.publication.path]) == |tree.publication.path|;
  }

  /** For a tree whose declared total is its file bytes, the reserved size is exactly the length
      of the archive, and reserving fails exactly when that length does not fit 64 bits. */
  lemma ReservedSizeIsExact(digest: Digest, tree: Tree)
    requires tree.totalBytes == FileBytes(tree)
    ensures EncodedCandidateBytes(tree) ==
            if |Archive(digest, tree)| < U64_RANGE then Ok(|Archive(digest, tree)|) else Err(LimitExceeded)
  {
    ArchiveLength(digest, tree);
    ReservedSum(tree, PathLengths(TreePaths(tree)));
  }

  lemma ReservedSum(tree: Tree, paths: nat)
    requires paths == PathLengths(TreePaths(tree))
    ensures var sum := ARCHIVE_HEADER_BYTES + SEQUENCE_LENGTH_BYTES * 2 + PUBLICATION_RECORD_OVERHEAD
                       + |tree.posts| * POST_RECORD_OVERHEAD + |tree.assets| * ASSET_RECORD_OVERHEAD
                       + paths + tree.totalBytes;
            EncodedCandidateBytes(tree) == if sum < U64_RANGE then Ok(sum) else Err(LimitExceeded)
  {
    CheckedSumIsExact(Ok(0), TreePaths(tree));
    var posts, assets := |tree.posts| * POST_RECORD_OVERHEAD, |tree.assets| * ASSET_RECORD_OVERHEAD;
    CheckedAdditions(posts, assets, paths, tree.totalBytes);
    assert |tree.posts| <= posts && |tree.assets| <= assets;
  }

  /** Four checked additions onto the fixed part. */
  lemma CheckedAdditions(posts: nat, assets: nat, paths: nat, total: nat)
    ensures var fixed := ARCHIVE_HEADER_BYTES + SEQUENCE_LENGTH_BYTES * 2 + PUBLICATION_RECORD_OVERHEAD;
            var sum := fixed + posts + assets + paths + total;
            CheckedAdd(CheckedAdd(CheckedAdd(CheckedAdd(Ok(fixed), posts), assets), paths), total)
            == if sum < U64_RANGE then Ok(sum) else Err(LimitExceeded)
  {
  }
}
