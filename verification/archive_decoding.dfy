/** The bounded archive decoder, and its two-way correspondence with the encoder. */
module ArchiveDecoding {
  import opened Framing
  import opened Ordering
  import opened Content
  import opened PathRegistries
  import opened Transcripts
  import opened TreeDigests
  import opened ArchiveFormat
  import opened TreeValidations

  /** The unread file bytes, and the length the decoder still believes it may read. */
  datatype Cursor = Cursor(rest: Bytes, remaining: nat)

  datatype DecodeState = DecodeState(cursor: Cursor, ledger: Ledger)

  function ReadExact(c: Cursor, length: nat): (r: Result<(Bytes, Cursor)>)
    ensures r.Ok? ==> |r.value.0| == length
  {
    if length > c.remaining || length > |c.rest| then Err(InvalidArchive)
    else Ok((c.rest[..length], Cursor(c.rest[length..], c.remaining - length)))
  }

  function ReadCount(c: Cursor, limit: nat): Result<(nat, Cursor)> {
    var (field, next) :- ReadExact(c, 4);
    var count := FromBigEndian(field);
    if count > limit then Err(LimitExceeded) else Ok((count, next))
  }

  function ReadString(c: Cursor, limit: nat): Result<(Str, Cursor)> {
    var (field, next) :- ReadExact(c, 4);
    var length := FromBigEndian(field);
    if length > limit then Err(LimitExceeded)
    else
      var (bytes, end) :- ReadExact(next, length);
      if Utf8(bytes) then Ok((bytes, end)) else Err(InvalidArchive)
  }

  function ReadBytes(c: Cursor, limit: nat): Result<(Bytes, Cursor)> {
    var (field, next) :- ReadExact(c, 8);
    var length := FromBigEndian(field);
    if length > limit then Err(LimitExceeded) else ReadExact(next, length)
  }

  function ReadUtf8(c: Cursor, limit: nat): Result<(Str, Cursor)> {
    var (bytes, next) :- ReadBytes(c, limit);
    if Utf8(bytes) then Ok((bytes, next)) else Err(InvalidArchive)
  }

  function ReadEnd(c: Cursor): Outcome {
    Need(c.remaining == 0 && c.rest == [], InvalidArchive)
  }

  function ParseCollection(tag: u8): Result<Collection> {
    if tag == 0 then Ok(Posts) else if tag == 1 then Ok(Drafts) else Err(InvalidArchive)
  }

  predicate InOrder(previous: Option<Bytes>, path: Bytes) {
    previous.Some? ==> LexLess(previous.value, path)
  }

  function DecodePublication(c: Cursor, limits: Limits): Result<(Publication, DecodeState)> {
    var (path, c1) :- ReadString(c, limits.pathBytes);
    :- ValidatePublicationPath(path, limits);
    var paths :- Register(EMPTY, path);
    var (source, c2) :- ReadUtf8(c1, limits.publicationFileBytes);
    var total :- AddTotal(0, |source|, limits);
    Ok((Publication(path, source), DecodeState(c2, Ledger(total, paths))))
  }

  function DecodePost(st: DecodeState, previous: Option<Bytes>, limits: Limits): Result<(Post, DecodeState)> {
    var (tag, c1) :- ReadExact(st.cursor, 1);
    var collection :- ParseCollection(tag[0]);
    var (path, c2) :- ReadString(c1, limits.pathBytes);
    :- ValidatePostPath(path, collection, limits);
    :- Need(InOrder(previous, path), InvalidArchive);
    var paths :- Register(st.ledger.paths, path);
    var (source, c3) :- ReadUtf8(c2, limits.postFileBytes);
    var total :- AddTotal(st.ledger.total, |source|, limits);
    Ok((Post(path, collection, source), DecodeState(c3, Ledger(total, paths))))
  }

  function DecodeAsset(st: DecodeState, previous: Option<Bytes>, limits: Limits): Result<(Asset, DecodeState)> {
    var (path, c1) :- ReadString(st.cursor, limits.pathBytes);
    :- ValidateAssetPath(path, limits);
    :- Need(InOrder(previous, path), InvalidArchive);
    var paths :- Register(st.ledger.paths, path);
    var (bytes, c2) :- ReadBytes(c1, limits.assetFileBytes);
    var total :- AddTotal(st.ledger.total, |bytes|, limits);
    Ok((Asset(path, bytes), DecodeState(c2, Ledger(total, paths))))
  }

  /** How one kind of record is read, accepted, accounted for and written. */
  datatype Format<!T> = Format(
    read: (DecodeState, Option<Bytes>) -> Result<(T, DecodeState)>,
    accepts: T -> bool,
    entry: T -> Entry,
    code: T -> Bytes)

  function PostFormat(limits: Limits): Format<Post> {
    Format((st, previous) => DecodePost(st, previous, limits),
           post => WritablePost(post) && CheckPost(post, limits).Pass?, PostEntry, PostRecord)
  }

  function AssetFormat(limits: Limits): Format<Asset> {
    Format((st, previous) => DecodeAsset(st, previous, limits),
           asset => WritableAsset(asset) && CheckAsset(asset, limits).Pass?, AssetEntry, AssetRecord)
  }

  /** `count` records, each behind the path of the one before it. */
  function DecodeMany<T>(f: Format<T>, st: DecodeState, count: nat,
                         previous: Option<Bytes>): Result<(seq<T>, DecodeState)>
    decreases count
  {
    if count == 0 then Ok(([], st))
    else
      var (record, middle) :- f.read(st, previous);
      var (records, end) :- DecodeMany(f, middle, count - 1, Some(f.entry(record).path));
      Ok(([record] + records, end))
  }

  function DecodeSection<T>(f: Format<T>, st: DecodeState, limit: nat): Result<(seq<T>, DecodeState)> {
    var (count, cursor) :- ReadCount(st.cursor, limit);
    DecodeMany(f, st.(cursor := cursor), count, None)
  }

  function DecodeHeader(c: Cursor, expected: Digest): Result<(u64, Cursor)> {
    var (magic, c1) :- ReadExact(c, 17);
    :- Need(magic == ARCHIVE_MAGIC, InvalidArchive);
    var (version, c2) :- ReadExact(c1, 2);
    :- Need(FromBigEndian(version) == ARCHIVE_VERSION, InvalidArchive);
    var (digest, c3) :- ReadExact(c2, 32);
    :- Need(digest == expected, DigestMismatch);
    var (total, c4) :- ReadExact(c3, 8);
    FromU64RoundTrip(total);
    Ok((FromBigEndian(total), c4))
  }

  function SaturatingSub(a: nat, b: nat): nat {
    if a >= b then a - b else 0
  }

  /** Publication, posts and assets, before the decoder checks the end of the archive. */
  function DecodeBody(c: Cursor, limits: Limits): Result<((Publication, seq<Post>, seq<Asset>), DecodeState)> {
    var (publication, s1) :- DecodePublication(c, limits);
    var (posts, s2) :- DecodeSection(PostFormat(limits), s1, SaturatingSub(limits.entries, 1));
    var (assets, s3) :- DecodeSection(AssetFormat(limits), s2,
                                      SaturatingSub(SaturatingSub(limits.entries, 1), |posts|));
    Ok(((publication, posts, assets), s3))
  }

  function Decode(data: Bytes, archiveBytes: u64, expected: Digest, limits: Limits, hash: Hash): Result<Tree> {
    var (storedTotal, c) :- DecodeHeader(Cursor(data, archiveBytes), expected);
    var (parts, st) :- DecodeBody(c, limits);
    :- ReadEnd(st.cursor);
    :- Need(st.ledger.total == storedTotal, InvalidArchive);
    var tree := Tree(parts.0, parts.1, parts.2, storedTotal);
    :- Need(TreeDigest(tree, hash) == expected, DigestMismatch);
    Ok(tree)
  }

  // Each reader accepts exactly what the matching writer produces.

  /** Reading moved the cursor over exactly `bytes`. */
  predicate Consumes(c: Cursor, bytes: Bytes, next: Cursor) {
    c.rest == bytes + next.rest && c.remaining == |bytes| + next.remaining
  }

  lemma ReadExactIff(c: Cursor, length: nat, bytes: Bytes, next: Cursor)
    ensures ReadExact(c, length) == Ok((bytes, next)) <==> |bytes| == length && Consumes(c, bytes, next)
  {
    if |bytes| == length && Consumes(c, bytes, next) {
      assert c.rest[..length] == bytes && c.rest[length..] == next.rest;
    }
  }

  lemma ConsumesBoth(c: Cursor, a: Bytes, middle: Cursor, b: Bytes, next: Cursor)
    requires Consumes(c, a, middle)
    ensures Consumes(c, a + b, next) <==> Consumes(middle, b, next)
  {
    Associate(a, b, next.rest);
    if Consumes(c, a + b, next) {
      SplitFixed(a, a, middle.rest, b + next.rest);
    }
  }

  /** The cursor behind the first part of a consumed concatenation. */
  lemma ConsumesFirst(c: Cursor, a: Bytes, b: Bytes, next: Cursor) returns (middle: Cursor)
    requires Consumes(c, a + b, next)
    ensures Consumes(c, a, middle) && Consumes(middle, b, next)
  {
    middle := Cursor(b + next.rest, |b| + next.remaining);
    Associate(a, b, next.rest);
  }

  lemma ReadCountIff(c: Cursor, limit: nat, count: nat, next: Cursor)
    ensures ReadCount(c, limit) == Ok((count, next)) <==>
            count < U32_RANGE && count <= limit && Consumes(c, U32(count), next)
  {
    var field := ReadExact(c, 4);
    if field.Ok? {
      ReadExactIff(c, 4, field.value.0, field.value.1);
      FromU32RoundTrip(field.value.0);
    }
    if count < U32_RANGE {
      ReadExactIff(c, 4, U32(count), next);
      U32RoundTrip(count);
    }
  }

  lemma ReadStringIff(c: Cursor, limit: nat, path: Str, next: Cursor)
    ensures ReadString(c, limit) == Ok((path, next)) <==>
            WritablePath(path) && |path| <= limit && Consumes(c, PathField(path), next)
  {
    if ReadString(c, limit) == Ok((path, next)) {
      var (field, middle) := ReadExact(c, 4).value;
      ReadExactIff(c, 4, field, middle);
      FromU32RoundTrip(field);
      ReadExactIff(middle, |path|, path, next);
      ConsumesBoth(c, field, middle, path, next);
    }
    if WritablePath(path) && |path| <= limit && Consumes(c, PathField(path), next) {
      var middle := ConsumesFirst(c, U32(|path|), path, next);
      ReadExactIff(c, 4, U32(|path|), middle);
      U32RoundTrip(|path|);
      ReadExactIff(middle, |path|, path, next);
    }
  }

  lemma ReadBytesIff(c: Cursor, limit: nat, bytes: Bytes, next: Cursor)
    ensures ReadBytes(c, limit) == Ok((bytes, next)) <==>
            |bytes| < U64_RANGE && |bytes| <= limit && Consumes(c, Frame(bytes), next)
  {
    if ReadBytes(c, limit) == Ok((bytes, next)) {
      var (field, middle) := ReadExact(c, 8).value;
      ReadExactIff(c, 8, field, middle);
      FromU64RoundTrip(field);
      ReadExactIff(middle, |bytes|, bytes, next);
      ConsumesBoth(c, field, middle, bytes, next);
    }
    if |bytes| < U64_RANGE && |bytes| <= limit && Consumes(c, Frame(bytes), next) {
      var middle := ConsumesFirst(c, U64(|bytes|), bytes, next);
      ReadExactIff(c, 8, U64(|bytes|), middle);
      U64RoundTrip(|bytes|);
      ReadExactIff(middle, |bytes|, bytes, next);
    }
  }

  lemma ReadUtf8Iff(c: Cursor, limit: nat, source: Str, next: Cursor)
    ensures ReadUtf8(c, limit) == Ok((source, next)) <==>
            |source| < U64_RANGE && |source| <= limit && Consumes(c, Frame(source), next)
  {
    ReadBytesIff(c, limit, source, next);
  }

  lemma DecodePublicationIff(c: Cursor, limits: Limits, publication: Publication, next: DecodeState)
    ensures DecodePublication(c, limits) == Ok((publication, next)) <==>
            && WritablePublication(publication)
            && CheckPublication(publication, limits).Pass?
            && Admit(NOTHING, Entry(publication.path, |publication.source|), limits) == Ok(next.ledger)
            && Consumes(c, PublicationRecord(publication), next.cursor)
  {
    var path, source := PathField(publication.path), Frame(publication.source);
    if DecodePublication(c, limits) == Ok((publication, next)) {
      var middle := ReadString(c, limits.pathBytes).value.1;
      ReadStringIff(c, limits.pathBytes, publication.path, middle);
      ReadUtf8Iff(middle, limits.publicationFileBytes, publication.source, next.cursor);
      ConsumesBoth(c, path, middle, source, next.cursor);
    }
    if WritablePublication(publication) && CheckPublication(publication, limits).Pass?
       && Consumes(c, PublicationRecord(publication), next.cursor) {
      var middle := ConsumesFirst(c, path, source, next.cursor);
      ReadStringIff(c, limits.pathBytes, publication.path, middle);
      ReadUtf8Iff(middle, limits.publicationFileBytes, publication.source, next.cursor);
    }
  }

  /** Reading `record` behind `previous` may move from `st` to `next`. */
  ghost predicate Step<T>(f: Format<T>, limits: Limits, st: DecodeState, previous: Option<Bytes>, record: T,
                          next: DecodeState) {
    && f.accepts(record) && InOrder(previous, f.entry(record).path)
    && Admit(st.ledger, f.entry(record), limits) == Ok(next.ledger)
    && Consumes(st.cursor, f.code(record), next.cursor)
  }

  /** The reader of a format accepts exactly what its writer produces. */
  ghost predicate Faithful<T(!new)>(f: Format<T>, limits: Limits) {
    && (forall st, previous | f.read(st, previous).Ok? ::
          Step(f, limits, st, previous, f.read(st, previous).value.0, f.read(st, previous).value.1))
    && (forall st, previous, record, next | Step(f, limits, st, previous, record, next) ::
          f.read(st, previous) == Ok((record, next)))
  }

  lemma DecodePostSound(st: DecodeState, previous: Option<Bytes>, limits: Limits)
    requires DecodePost(st, previous, limits).Ok?
    ensures var r := DecodePost(st, previous, limits).value;
            Step(PostFormat(limits), limits, st, previous, r.0, r.1)
  {
    var r := DecodePost(st, previous, limits).value;
    var post, next := r.0, r.1;
    var tag, c1, c2 := PartsOfPost(st, previous, limits, post, next);
    ParsedTag(st.cursor, tag, c1, post.collection);
    ReadStringIff(c1, limits.pathBytes, post.path, c2);
    ReadUtf8Iff(c2, limits.postFileBytes, post.source, next.cursor);
    ConsumesBoth(c1, PathField(post.path), c2, Frame(post.source), next.cursor);
    ConsumesBoth(st.cursor, [post.collection.Tag()], c1, PathField(post.path) + Frame(post.source), next.cursor);
  }

  lemma PartsOfPost(st: DecodeState, previous: Option<Bytes>, limits: Limits, post: Post, next: DecodeState)
    returns (tag: Bytes, c1: Cursor, c2: Cursor)
    requires DecodePost(st, previous, limits) == Ok((post, next))
    ensures ReadExact(st.cursor, 1) == Ok((tag, c1)) && ParseCollection(tag[0]) == Ok(post.collection)
    ensures ReadString(c1, limits.pathBytes) == Ok((post.path, c2))
    ensures ReadUtf8(c2, limits.postFileBytes) == Ok((post.source, next.cursor))
    ensures ValidatePostPath(post.path, post.collection, limits).Pass? && InOrder(previous, post.path)
    ensures Register(st.ledger.paths, post.path) == Ok(next.ledger.paths)
    ensures AddTotal(st.ledger.total, |post.source|, limits) == Ok(next.ledger.total)
  {
    tag := ReadExact(st.cursor, 1).value.0;
    c1 := ReadExact(st.cursor, 1).value.1;
    c2 := ReadString(c1, limits.pathBytes).value.1;
  }

  lemma ParsedTag(c: Cursor, tag: Bytes, next: Cursor, collection: Collection)
    requires ReadExact(c, 1) == Ok((tag, next)) && ParseCollection(tag[0]) == Ok(collection)
    ensures Consumes(c, [collection.Tag()], next)
  {
    ReadExactIff(c, 1, tag, next);
    assert tag == [collection.Tag()];
  }

  lemma DecodePostComplete(st: DecodeState, previous: Option<Bytes>, limits: Limits, post: Post, next: DecodeState)
    requires Step(PostFormat(limits), limits, st, previous, post, next)
    ensures DecodePost(st, previous, limits) == Ok((post, next))
  {
    var tag := [post.collection.Tag()];
    var c1 := ConsumesFirst(st.cursor, tag, PathField(post.path) + Frame(post.source), next.cursor);
    ReadExactIff(st.cursor, 1, tag, c1);
    assert ParseCollection(tag[0]) == Ok(post.collection);
    var c2 := ConsumesFirst(c1, PathField(post.path), Frame(post.source), next.cursor);
    ReadStringIff(c1, limits.pathBytes, post.path, c2);
    ReadUtf8Iff(c2, limits.postFileBytes, post.source, next.cursor);
  }

  lemma DecodeAssetSound(st: DecodeState, previous: Option<Bytes>, limits: Limits)
    requires DecodeAsset(st, previous, limits).Ok?
    ensures var r := DecodeAsset(st, previous, limits).value;
            Step(AssetFormat(limits), limits, st, previous, r.0, r.1)
  {
    var r := DecodeAsset(st, previous, limits).value;
    var asset, next := r.0, r.1;
    var middle := ReadString(st.cursor, limits.pathBytes).value.1;
    ReadStringIff(st.cursor, limits.pathBytes, asset.path, middle);
    ReadBytesIff(middle, limits.assetFileBytes, asset.bytes, next.cursor);
    ConsumesBoth(st.cursor, PathField(asset.path), middle, Frame(asset.bytes), next.cursor);
  }

  lemma DecodeAssetComplete(st: DecodeState, previous: Option<Bytes>, limits: Limits, asset: Asset, next: DecodeState)
    requires Step(AssetFormat(limits), limits, st, previous, asset, next)
    ensures DecodeAsset(st, previous, limits) == Ok((asset, next))
  {
    var middle := ConsumesFirst(st.cursor, PathField(asset.path), Frame(asset.bytes), next.cursor);
    ReadStringIff(st.cursor, limits.pathBytes, asset.path, middle);
    ReadBytesIff(middle, limits.assetFileBytes, asset.bytes, next.cursor);
  }

  lemma PostFormatFaithful(limits: Limits)
    ensures Faithful(PostFormat(limits), limits)
  {
    var f := PostFormat(limits);
    forall st, previous | f.read(st, previous).Ok?
      ensures Step(f, limits, st, previous, f.read(st, previous).value.0, f.read(st, previous).value.1)
    {
      DecodePostSound(st, previous, limits);
    }
    forall st, previous, post, next | Step(f, limits, st, previous, post, next)
      ensures f.read(st, previous) == Ok((post, next))
    {
      DecodePostComplete(st, previous, limits, post, next);
    }
  }

  lemma AssetFormatFaithful(limits: Limits)
    ensures Faithful(AssetFormat(limits), limits)
  {
    var f := AssetFormat(limits);
    forall st, previous | f.read(st, previous).Ok?
      ensures Step(f, limits, st, previous, f.read(st, previous).value.0, f.read(st, previous).value.1)
    {
      DecodeAssetSound(st, previous, limits);
    }
    forall st, previous, asset, next | Step(f, limits, st, previous, asset, next)
      ensures f.read(st, previous) == Ok((asset, next))
    {
      DecodeAssetComplete(st, previous, limits, asset, next);
    }
  }

  /** Each record is acceptable and its path follows the one before it. */
  ghost predicate AcceptsMany<T>(f: Format<T>, previous: Option<Bytes>, records: seq<T>)
    decreases |records|
  {
    records != [] ==>
      && f.accepts(records[0]) && InOrder(previous, f.entry(records[0]).path)
      && AcceptsMany(f, Some(f.entry(records[0]).path), records[1..])
  }

  ghost predicate Section<T>(f: Format<T>, limits: Limits, st: DecodeState, previous: Option<Bytes>,
                             records: seq<T>, next: DecodeState) {
    && AcceptsMany(f, previous, records)
    && AdmitAll(st.ledger, Map(f.entry, records), limits) == Ok(next.ledger)
    && Consumes(st.cursor, Concat(f.code, records), next.cursor)
  }

  lemma SectionStep<T>(f: Format<T>, limits: Limits, st: DecodeState, previous: Option<Bytes>,
                       record: T, middle: DecodeState, records: seq<T>, next: DecodeState)
    requires Step(f, limits, st, previous, record, middle)
    ensures Section(f, limits, middle, Some(f.entry(record).path), records, next)
       <==> Section(f, limits, st, previous, [record] + records, next)
  {
    var all := [record] + records;
    assert all[1..] == records;
    assert Map(f.entry, all)[1..] == Map(f.entry, records);
    ConsumesBoth(st.cursor, f.code(record), middle.cursor, Concat(f.code, records), next.cursor);
  }

  lemma {:induction false} DecodeManySound<T(!new)>(f: Format<T>, limits: Limits, st: DecodeState, count: nat,
                                                    previous: Option<Bytes>)
    requires Faithful(f, limits) && DecodeMany(f, st, count, previous).Ok?
    ensures var r := DecodeMany(f, st, count, previous).value;
            |r.0| == count && Section(f, limits, st, previous, r.0, r.1)
    decreases count
  {
    if count > 0 {
      var first := f.read(st, previous).value;
      DecodeManySound(f, limits, first.1, count - 1, Some(f.entry(first.0).path));
      var tail := DecodeMany(f, first.1, count - 1, Some(f.entry(first.0).path)).value;
      SectionStep(f, limits, st, previous, first.0, first.1, tail.0, tail.1);
    } else {
      assert Section(f, limits, st, previous, [], st);
    }
  }

  lemma {:induction false} DecodeManyComplete<T(!new)>(f: Format<T>, limits: Limits, st: DecodeState,
                                                       previous: Option<Bytes>, records: seq<T>, next: DecodeState)
    requires Faithful(f, limits) && Section(f, limits, st, previous, records, next)
    ensures DecodeMany(f, st, |records|, previous) == Ok((records, next))
    decreases |records|
  {
    if records == [] {
      assert st.cursor == next.cursor;
    } else {
      var record, tail := records[0], records[1..];
      assert records == [record] + tail;
      assert Map(f.entry, records)[1..] == Map(f.entry, tail);
      var cursor := ConsumesFirst(st.cursor, f.code(record), Concat(f.code, tail), next.cursor);
      var middle := DecodeState(cursor, Admit(st.ledger, f.entry(record), limits).value);
      assert Step(f, limits, st, previous, record, middle);
      SectionStep(f, limits, st, previous, record, middle, tail, next);
      DecodeManyComplete(f, limits, middle, Some(f.entry(record).path), tail, next);
    }
  }

  // Canonical order and acceptance of whole sections.

  ghost predicate Ascending(paths: seq<Bytes>) {
    forall i, j | 0 <= i < j < |paths| :: LexLess(paths[i], paths[j])
  }

  function Paths<T>(f: Format<T>, records: seq<T>): seq<Bytes> {
    Map(EntryPath, Map(f.entry, records))
  }

  /** Each record is acceptable and all paths ascend strictly from `previous`. */
  ghost predicate AscendsFrom<T>(f: Format<T>, previous: Option<Bytes>, records: seq<T>) {
    && (forall record | record in records :: f.accepts(record))
    && Ascending(Paths(f, records))
    && (records != [] ==> InOrder(previous, f.entry(records[0]).path))
  }

  lemma AscendsFromStep<T>(f: Format<T>, previous: Option<Bytes>, record: T, tail: seq<T>)
    ensures AscendsFrom(f, previous, [record] + tail) <==>
            && f.accepts(record) && InOrder(previous, f.entry(record).path)
            && AscendsFrom(f, Some(f.entry(record).path), tail)
  {
    var records := [record] + tail;
    assert (forall r | r in records :: f.accepts(r)) <==> f.accepts(record) && forall r | r in tail :: f.accepts(r) by {
      assert record in records && forall other | other in tail :: other in records;
    }
    assert Paths(f, records) == [f.entry(record).path] + Paths(f, tail);
    AscendingExtend(f.entry(record).path, Paths(f, tail));
    if tail != [] {
      assert Paths(f, tail)[0] == f.entry(tail[0]).path;
    }
  }

  lemma {:induction false} AcceptsManyAscends<T>(f: Format<T>, previous: Option<Bytes>, records: seq<T>)
    ensures AcceptsMany(f, previous, records) <==> AscendsFrom(f, previous, records)
    decreases |records|
  {
    if records != [] {
      var record, tail := records[0], records[1..];
      AcceptsManyAscends(f, Some(f.entry(record).path), tail);
      AscendsFromStep(f, previous, record, tail);
      assert records == [record] + tail;
    }
  }

  lemma AscendingExtend(path: Bytes, tail: seq<Bytes>)
    ensures Ascending([path] + tail) <==> Ascending(tail) && (tail != [] ==> LexLess(path, tail[0]))
  {
    var paths := [path] + tail;
    if Ascending(paths) {
      forall i, j | 0 <= i < j < |tail| ensures LexLess(tail[i], tail[j]) {
        assert LexLess(paths[i + 1], paths[j + 1]);
      }
      if tail != [] {
        assert LexLess(paths[0], paths[1]);
      }
    }
    if Ascending(tail) && (tail != [] ==> LexLess(path, tail[0])) {
      forall i, j | 0 <= i < j < |paths| ensures LexLess(paths[i], paths[j]) {
        if i > 0 {
          assert LexLess(tail[i - 1], tail[j - 1]);
        } else if j > 1 {
          LexTransitive(path, tail[0], tail[j - 1]);
          if path == tail[j - 1] {
            LexAntisymmetric(path, tail[0]);
          }
        }
      }
    }
  }

  /** With distinct paths, canonical order is strictly ascending path order. */
  lemma CanonicalPostsAscend(posts: seq<Post>)
    requires Distinct(Map(PostPath, posts))
    ensures Ascending(Map(PostPath, posts)) <==> Sort(PostLeq, posts) == posts
  {
    PostOrder();
    LexIsTotalOrder();
    SortSorts(PostLeq, posts);
    var paths := Map(PostPath, posts);
    if Sort(PostLeq, posts) == posts {
      forall i, j | 0 <= i < j < |paths| ensures LexLess(paths[i], paths[j]) {
        assert PostLeq(posts[i], posts[j]) && paths[i] != paths[j];
      }
    }
    if Ascending(paths) {
      forall i, j | 0 <= i < j < |posts| ensures PostLeq(posts[i], posts[j]) {
        assert LexLess(paths[i], paths[j]);
      }
      SortIsCanonical(PostLeq, posts, posts);
    }
  }

  lemma CanonicalAssetsAscend(assets: seq<Asset>)
    requires Distinct(Map(AssetPath, assets))
    ensures Ascending(Map(AssetPath, assets)) <==> Sort(AssetLeq, assets) == assets
  {
    AssetOrder();
    LexIsTotalOrder();
    SortSorts(AssetLeq, assets);
    var paths := Map(AssetPath, assets);
    if Sort(AssetLeq, assets) == assets {
      forall i, j | 0 <= i < j < |paths| ensures LexLess(paths[i], paths[j]) {
        assert AssetLeq(assets[i], assets[j]) && paths[i] != paths[j];
      }
    }
    if Ascending(paths) {
      forall i, j | 0 <= i < j < |assets| ensures AssetLeq(assets[i], assets[j]) {
        assert LexLess(paths[i], paths[j]);
      }
      SortIsCanonical(AssetLeq, assets, assets);
    }
  }

  lemma CompatiblePathsDistinct(tree: Tree)
    requires Compatible(TreePaths(tree))
    ensures Distinct(Map(PostPath, tree.posts)) && Distinct(Map(AssetPath, tree.assets))
  {
    DistinctParts([tree.publication.path], Map(PostPath, tree.posts), Map(AssetPath, tree.assets));
  }

  lemma DistinctParts(a: seq<Bytes>, b: seq<Bytes>, c: seq<Bytes>)
    requires Distinct(a + b + c)
    ensures Distinct(b) && Distinct(c)
  {
    var all := a + b + c;
    forall i, j | 0 <= i < j < |b| ensures b[i] != b[j] {
      assert all[|a| + i] == b[i] && all[|a| + j] == b[j];
    }
    forall i, j | 0 <= i < j < |c| ensures c[i] != c[j] {
      assert all[|a| + |b| + i] == c[i] && all[|a| + |b| + j] == c[j];
    }
  }

  // Header and body.

  lemma DecodeHeaderIff(c: Cursor, expected: Digest, total: u64, next: Cursor)
    ensures DecodeHeader(c, expected) == Ok((total, next)) <==> Consumes(c, ArchiveHeader(expected, total), next)
  {
    var version := BigEndian(2, ARCHIVE_VERSION);
    RangeOfWidths();
    BigEndianRoundTrip(2, ARCHIVE_VERSION);
    U64RoundTrip(total);
    if DecodeHeader(c, expected) == Ok((total, next)) {
      var (magic, c1) := ReadExact(c, 17).value;
      ReadExactIff(c, 17, magic, c1);
      var (field, c2) := ReadExact(c1, 2).value;
      ReadExactIff(c1, 2, field, c2);
      FromBigEndianRoundTrip(field);
      var c3 := ReadExact(c2, 32).value.1;
      ReadExactIff(c2, 32, expected, c3);
      var (last, c4) := ReadExact(c3, 8).value;
      ReadExactIff(c3, 8, last, c4);
      FromU64RoundTrip(last);
      ConsumesBoth(c, magic, c1, version, c2);
      ConsumesBoth(c, magic + version, c2, expected, c3);
      ConsumesBoth(c, magic + version + expected, c3, last, next);
    }
    if Consumes(c, ArchiveHeader(expected, total), next) {
      var c3 := ConsumesFirst(c, ARCHIVE_MAGIC + version + expected, U64(total), next);
      ReadExactIff(c3, 8, U64(total), next);
      var c2 := ConsumesFirst(c, ARCHIVE_MAGIC + version, expected, c3);
      ReadExactIff(c2, 32, expected, c3);
      var c1 := ConsumesFirst(c, ARCHIVE_MAGIC, version, c2);
      ReadExactIff(c1, 2, version, c2);
      ReadExactIff(c, 17, ARCHIVE_MAGIC, c1);
    }
  }

  function BodyBytes(tree: Tree): Bytes {
    PublicationRecord(tree.publication) + (PostsSection(tree.posts) + AssetsSection(tree.assets))
  }

  lemma ArchiveGroups(digest: Digest, tree: Tree)
    ensures Archive(digest, tree) == ArchiveHeader(digest, tree.totalBytes) + BodyBytes(Canonical(tree))
  {
    var sorted := Canonical(tree);
    Associate4(ArchiveHeader(digest, tree.totalBytes), PublicationRecord(tree.publication),
               PostsSection(sorted.posts), AssetsSection(sorted.assets));
  }

  /** The tree's records, in their own order, pass every check of the body decoder. */
  ghost predicate BodyAccepted(tree: Tree, limits: Limits, ledger: Ledger) {
    && Writable(tree) && |tree.posts| + |tree.assets| < limits.entries
    && CheckPublication(tree.publication, limits).Pass?
    && AcceptsMany(PostFormat(limits), None, tree.posts) && AcceptsMany(AssetFormat(limits), None, tree.assets)
    && AdmitAll(NOTHING, TreeEntries(tree), limits) == Ok(ledger)
  }

  lemma AdmitTree(tree: Tree, limits: Limits, l1: Ledger, l2: Ledger)
    requires Admit(NOTHING, Entry(tree.publication.path, |tree.publication.source|), limits) == Ok(l1)
    requires AdmitAll(l1, Map(PostEntry, tree.posts), limits) == Ok(l2)
    ensures AdmitAll(NOTHING, TreeEntries(tree), limits) == AdmitAll(l2, Map(AssetEntry, tree.assets), limits)
  {
    var head := [Entry(tree.publication.path, |tree.publication.source|)];
    var posts, assets := Map(PostEntry, tree.posts), Map(AssetEntry, tree.assets);
    assert AdmitAll(NOTHING, head, limits) == AdmitAll(l1, [], limits);
    AdmitAllAppend(NOTHING, head, posts, limits);
    AdmitAllAppend(NOTHING, head + posts, assets, limits);
  }

  lemma DecodeBodySound(c: Cursor, limits: Limits, tree: Tree, next: DecodeState)
    requires DecodeBody(c, limits) == Ok(((tree.publication, tree.posts, tree.assets), next))
    ensures BodyAccepted(tree, limits, next.ledger) && Consumes(c, BodyBytes(tree), next.cursor)
  {
    var s1 := DecodePublication(c, limits).value.1;
    DecodePublicationIff(c, limits, tree.publication, s1);
    var (postCount, c1) := ReadCount(s1.cursor, SaturatingSub(limits.entries, 1)).value;
    ReadCountIff(s1.cursor, SaturatingSub(limits.entries, 1), postCount, c1);
    var s2 := DecodeMany(PostFormat(limits), s1.(cursor := c1), postCount, None).value.1;
    PostFormatFaithful(limits);
    DecodeManySound(PostFormat(limits), limits, s1.(cursor := c1), postCount, None);
    var left := SaturatingSub(SaturatingSub(limits.entries, 1), |tree.posts|);
    var (assetCount, c2) := ReadCount(s2.cursor, left).value;
    ReadCountIff(s2.cursor, left, assetCount, c2);
    AssetFormatFaithful(limits);
    DecodeManySound(AssetFormat(limits), limits, s2.(cursor := c2), assetCount, None);
    AcceptsManyAscends(PostFormat(limits), None, tree.posts);
    AcceptsManyAscends(AssetFormat(limits), None, tree.assets);
    AdmitTree(tree, limits, s1.ledger, s2.ledger);
    ConsumesBoth(s2.cursor, U32(assetCount), c2, Concat(AssetRecord, tree.assets), next.cursor);
    ConsumesBoth(s1.cursor, U32(postCount), c1, Concat(PostRecord, tree.posts), s2.cursor);
    ConsumesBoth(s1.cursor, PostsSection(tree.posts), s2.cursor, AssetsSection(tree.assets), next.cursor);
    ConsumesBoth(c, PublicationRecord(tree.publication), s1.cursor,
                 PostsSection(tree.posts) + AssetsSection(tree.assets), next.cursor);
  }

  lemma AdmittedParts(tree: Tree, limits: Limits, ledger: Ledger) returns (l1: Ledger, l2: Ledger)
    requires AdmitAll(NOTHING, TreeEntries(tree), limits) == Ok(ledger)
    ensures Admit(NOTHING, Entry(tree.publication.path, |tree.publication.source|), limits) == Ok(l1)
    ensures AdmitAll(l1, Map(PostEntry, tree.posts), limits) == Ok(l2)
    ensures AdmitAll(l2, Map(AssetEntry, tree.assets), limits) == Ok(ledger)
  {
    var head := [Entry(tree.publication.path, |tree.publication.source|)];
    var posts, assets := Map(PostEntry, tree.posts), Map(AssetEntry, tree.assets);
    AdmitAllAppend(NOTHING, head + posts, assets, limits);
    AdmitAllAppend(NOTHING, head, posts, limits);
    l1 := Admit(NOTHING, head[0], limits).value;
    assert AdmitAll(NOTHING, head, limits) == AdmitAll(l1, [], limits);
    l2 := AdmitAll(l1, posts, limits).value;
  }

  lemma DecodeBodyComplete(c: Cursor, limits: Limits, tree: Tree, next: DecodeState)
    requires BodyAccepted(tree, limits, next.ledger) && Consumes(c, BodyBytes(tree), next.cursor)
    ensures DecodeBody(c, limits) == Ok(((tree.publication, tree.posts, tree.assets), next))
  {
    var l1, l2 := AdmittedParts(tree, limits, next.ledger);
    var posts, assets := PostsSection(tree.posts), AssetsSection(tree.assets);
    var d1 := ConsumesFirst(c, PublicationRecord(tree.publication), posts + assets, next.cursor);
    DecodePublicationIff(c, limits, tree.publication, DecodeState(d1, l1));
    var d2 := ConsumesFirst(d1, posts, assets, next.cursor);
    var c1 := ConsumesFirst(d1, U32(|tree.posts|), Concat(PostRecord, tree.posts), d2);
    ReadCountIff(d1, SaturatingSub(limits.entries, 1), |tree.posts|, c1);
    PostFormatFaithful(limits);
    DecodeManyComplete(PostFormat(limits), limits, DecodeState(c1, l1), None, tree.posts, DecodeState(d2, l2));
    var c2 := ConsumesFirst(d2, U32(|tree.assets|), Concat(AssetRecord, tree.assets), next.cursor);
    ReadCountIff(d2, SaturatingSub(SaturatingSub(limits.entries, 1), |tree.posts|), |tree.assets|, c2);
    AssetFormatFaithful(limits);
    DecodeManyComplete(AssetFormat(limits), limits, DecodeState(c2, l2), None, tree.assets, next);
  }

  lemma PostsAcceptedIff(posts: seq<Post>, limits: Limits)
    ensures AcceptsMany(PostFormat(limits), None, posts) <==>
            && (forall post | post in posts :: WritablePost(post) && CheckPost(post, limits).Pass?)
            && Ascending(Map(PostPath, posts))
  {
    AcceptsManyAscends(PostFormat(limits), None, posts);
    assert Paths(PostFormat(limits), posts) == Map(PostPath, posts);
  }

  lemma AssetsAcceptedIff(assets: seq<Asset>, limits: Limits)
    ensures AcceptsMany(AssetFormat(limits), None, assets) <==>
            && (forall asset | asset in assets :: WritableAsset(asset) && CheckAsset(asset, limits).Pass?)
            && Ascending(Map(AssetPath, assets))
  {
    AcceptsManyAscends(AssetFormat(limits), None, assets);
    assert Paths(AssetFormat(limits), assets) == Map(AssetPath, assets);
  }

  /** What admitting every entry means for the tree. */
  lemma AdmittedIff(tree: Tree, limits: Limits)
    ensures AdmitAll(NOTHING, TreeEntries(tree), limits).Ok? <==>
            Compatible(TreePaths(tree)) && FileBytes(tree) <= limits.totalTreeBytes
    ensures AdmitAll(NOTHING, TreeEntries(tree), limits).Ok? ==>
              AdmitAll(NOTHING, TreeEntries(tree), limits).value.total == FileBytes(tree)
  {
    TreeEntriesSums(tree);
    AdmitAllSpec(NOTHING, TreeEntries(tree), limits);
    AcceptsExactlyCompatible(TreePaths(tree));
  }

  lemma CanonicalIffAscending(tree: Tree)
    requires Compatible(TreePaths(tree))
    ensures Canonical(tree) == tree <==> Ascending(Map(PostPath, tree.posts)) && Ascending(Map(AssetPath, tree.assets))
  {
    CompatiblePathsDistinct(tree);
    CanonicalPostsAscend(tree.posts);
    CanonicalAssetsAscend(tree.assets);
  }

  lemma BodyAcceptedThenAcceptable(tree: Tree, limits: Limits, ledger: Ledger)
    requires BodyAccepted(tree, limits, ledger) && ledger.total == tree.totalBytes
    ensures Acceptable(tree, limits) && Canonical(tree) == tree
  {
    PostsAcceptedIff(tree.posts, limits);
    AssetsAcceptedIff(tree.assets, limits);
    AdmittedIff(tree, limits);
    CanonicalIffAscending(tree);
  }

  lemma AcceptableThenBodyAccepted(tree: Tree, limits: Limits) returns (ledger: Ledger)
    requires Acceptable(tree, limits) && Writable(tree) && Canonical(tree) == tree
    ensures BodyAccepted(tree, limits, ledger) && ledger.total == tree.totalBytes
  {
    AdmittedIff(tree, limits);
    ledger := AdmitAll(NOTHING, TreeEntries(tree), limits).value;
    PostsAcceptedIff(tree.posts, limits);
    AssetsAcceptedIff(tree.assets, limits);
    CanonicalIffAscending(tree);
  }

  lemma DecodeSound(data: Bytes, archiveBytes: u64, expected: Digest, limits: Limits, hash: Hash, tree: Tree)
    requires Decode(data, archiveBytes, expected, limits, hash) == Ok(tree)
    ensures Acceptable(tree, limits) && Writable(tree) && Canonical(tree) == tree
    ensures TreeDigest(tree, hash) == expected
    ensures data == Archive(expected, tree) && archiveBytes == |data|
  {
    var start := Cursor(data, archiveBytes);
    var c, st := PartsOfDecode(data, archiveBytes, expected, limits, hash, tree);
    DecodeHeaderIff(start, expected, tree.totalBytes, c);
    DecodeBodySound(c, limits, tree, st);
    BodyAcceptedThenAcceptable(tree, limits, st.ledger);
    ConsumesBoth(start, ArchiveHeader(expected, tree.totalBytes), c, BodyBytes(tree), st.cursor);
    ArchiveGroups(expected, tree);
    ConsumesAll(start, ArchiveHeader(expected, tree.totalBytes) + BodyBytes(tree), st.cursor);
  }

  lemma PartsOfDecode(data: Bytes, archiveBytes: u64, expected: Digest, limits: Limits, hash: Hash, tree: Tree)
    returns (c: Cursor, st: DecodeState)
    requires Decode(data, archiveBytes, expected, limits, hash) == Ok(tree)
    ensures DecodeHeader(Cursor(data, archiveBytes), expected) == Ok((tree.totalBytes, c))
    ensures DecodeBody(c, limits) == Ok(((tree.publication, tree.posts, tree.assets), st))
    ensures st.cursor.rest == [] && st.cursor.remaining == 0 && st.ledger.total == tree.totalBytes
    ensures TreeDigest(tree, hash) == expected
  {
    c := DecodeHeader(Cursor(data, archiveBytes), expected).value.1;
    st := DecodeBody(c, limits).value.1;
  }

  lemma ConsumesAll(c: Cursor, bytes: Bytes, end: Cursor)
    requires Consumes(c, bytes, end) && end.rest == [] && end.remaining == 0
    ensures c.rest == bytes && c.remaining == |bytes|
  {
    assert bytes + [] == bytes;
  }

  lemma DecodeComplete(expected: Digest, limits: Limits, hash: Hash, tree: Tree)
    requires Acceptable(tree, limits) && Writable(tree) && Canonical(tree) == tree
    requires TreeDigest(tree, hash) == expected
    requires |Archive(expected, tree)| < U64_RANGE
    ensures Decode(Archive(expected, tree), |Archive(expected, tree)|, expected, limits, hash) == Ok(tree)
  {
    var ledger := AcceptableThenBodyAccepted(tree, limits);
    var data := Archive(expected, tree);
    ArchiveGroups(expected, tree);
    var start, end := Cursor(data, |data|), Cursor([], 0);
    assert Consumes(start, data, end);
    var c := ConsumesFirst(start, ArchiveHeader(expected, tree.totalBytes), BodyBytes(tree), end);
    DecodeHeaderIff(start, expected, tree.totalBytes, c);
    DecodeBodyComplete(c, limits, tree, DecodeState(end, ledger));
  }

  /** Decoding accepts a byte string exactly when it is the archive of an acceptable tree in
      canonical order under its own digest, and it returns that tree. */
  lemma DecodesExactlyArchives(data: Bytes, archiveBytes: u64, expected: Digest, limits: Limits, hash: Hash, tree: Tree)
    ensures Decode(data, archiveBytes, expected, limits, hash) == Ok(tree) <==>
            && ValidateTree(tree, limits).Pass? && Writable(tree) && Canonical(tree) == tree
            && TreeDigest(tree, hash) == expected
            && data == Archive(expected, tree) && archiveBytes == |data|
  {
    ValidatesExactlyAcceptable(tree, limits);
    if Decode(data, archiveBytes, expected, limits, hash) == Ok(tree) {
      DecodeSound(data, archiveBytes, expected, limits, hash, tree);
    }
    if ValidateTree(tree, limits).Pass? && Writable(tree) && Canonical(tree) == tree
       && TreeDigest(tree, hash) == expected && data == Archive(expected, tree) && archiveBytes == |data| {
      DecodeComplete(expected, limits, hash, tree);
    }
  }

  /** An accepted tree that can be written is read back in canonical order. */
  lemma ArchiveRoundTrip(tree: Tree, limits: Limits, hash: Hash)
    requires ValidateTree(tree, limits).Pass? && Writable(tree)
    requires |Archive(TreeDigest(tree, hash), tree)| < U64_RANGE
    ensures var digest := TreeDigest(tree, hash);
            Decode(Archive(digest, tree), |Archive(digest, tree)|, digest, limits, hash) == Ok(Canonical(tree))
  {
    var sorted := Canonical(tree);
    ValidatesExactlyAcceptable(tree, limits);
    AcceptanceIsUnordered(tree, limits);
    WritableIsUnordered(tree);
    CanonicalIdempotent(tree);
    DigestOfCanonical(tree, hash);
    DecodeComplete(TreeDigest(tree, hash), limits, hash, sorted);
  }

  /** No two accepted archives denote the same tree. */
  lemma AcceptedArchivesAreUnique(a: Bytes, b: Bytes, la: u64, lb: u64, da: Digest, db: Digest,
                                  limitsA: Limits, limitsB: Limits, hash: Hash)
    requires Decode(a, la, da, limitsA, hash).Ok? && Decode(b, lb, db, limitsB, hash).Ok?
    ensures a == b <==> CanonicallyEqual(Decode(a, la, da, limitsA, hash).value, Decode(b, lb, db, limitsB, hash).value)
    ensures a == b ==> da == db && la == lb
  {
    var x, y := Decode(a, la, da, limitsA, hash).value, Decode(b, lb, db, limitsB, hash).value;
    DecodeSound(a, la, da, limitsA, hash, x);
    DecodeSound(b, lb, db, limitsB, hash, y);
    CanonicallyEqualIsUnordered(x, y);
    if a == b {
      SameArchiveSameTree(x, y, da, db);
    }
  }

  lemma SameArchiveSameTree(x: Tree, y: Tree, da: Digest, db: Digest)
    requires Writable(x) && Writable(y) && Canonical(x) == x && Canonical(y) == y
    requires Archive(da, x) == Archive(db, y)
    ensures da == db && x == y
  {
    ArchiveGroups(da, x);
    ArchiveGroups(db, y);
    var hx, hy := ArchiveHeader(da, x.totalBytes), ArchiveHeader(db, y.totalBytes);
    SplitFixed(hx, hy, BodyBytes(x), BodyBytes(y));
    var version := BigEndian(2, ARCHIVE_VERSION);
    SplitFixed(ARCHIVE_MAGIC + version + da, ARCHIVE_MAGIC + version + db, U64(x.totalBytes), U64(y.totalBytes));
    SplitFixed(ARCHIVE_MAGIC + version, ARCHIVE_MAGIC + version, da, db);
    U64RoundTrip(x.totalBytes);
    U64RoundTrip(y.totalBytes);
    BodySplit(x, y);
  }

  lemma PathFieldSplit(a: Bytes, b: Bytes, s: Bytes, t: Bytes)
    requires WritablePath(a) && WritablePath(b) && PathField(a) + s == PathField(b) + t
    ensures a == b && s == t
  {
    Associate(U32(|a|), a, s);
    Associate(U32(|b|), b, t);
    SplitFixed(U32(|a|), U32(|b|), a + s, b + t);
    U32RoundTrip(|a|);
    U32RoundTrip(|b|);
    SplitFixed(a, b, s, t);
  }

  lemma EntrySplit(p: Bytes, q: Bytes, a: Bytes, b: Bytes, s: Bytes, t: Bytes)
    requires WritablePath(p) && WritablePath(q) && Sized(a) && Sized(b)
    requires PathField(p) + Frame(a) + s == PathField(q) + Frame(b) + t
    ensures p == q && a == b && s == t
  {
    Associate(PathField(p), Frame(a), s);
    Associate(PathField(q), Frame(b), t);
    PathFieldSplit(p, q, Frame(a) + s, Frame(b) + t);
    FrameSplit(a, b, s, t);
  }

  lemma PostRecordPrefixFree()
    ensures PrefixFree(PostRecord, (post: Post) => WritablePost(post))
  {
    forall x: Post, y: Post | WritablePost(x) && WritablePost(y) && PostRecord(x) <= PostRecord(y) ensures x == y {
      var rest := Rest(PostRecord(x), PostRecord(y));
      var tx, ty := [x.collection.Tag()], [y.collection.Tag()];
      var bodyX, bodyY := PathField(x.path) + Frame(x.source), PathField(y.path) + Frame(y.source);
      Associate(tx, bodyX, rest);
      SplitFixed(tx, ty, bodyX + rest, bodyY);
      assert tx[0] == ty[0];
      assert bodyY == bodyY + [];
      EntrySplit(x.path, y.path, x.source, y.source, rest, []);
    }
  }

  lemma AssetRecordPrefixFree()
    ensures PrefixFree(AssetRecord, (asset: Asset) => WritableAsset(asset))
  {
    forall x: Asset, y: Asset | WritableAsset(x) && WritableAsset(y) && AssetRecord(x) <= AssetRecord(y)
      ensures x == y
    {
      var rest := Rest(AssetRecord(x), AssetRecord(y));
      assert AssetRecord(y) == AssetRecord(y) + [];
      EntrySplit(x.path, y.path, x.bytes, y.bytes, rest, []);
    }
  }

  lemma BodySplit(x: Tree, y: Tree)
    requires Writable(x) && Writable(y) && BodyBytes(x) == BodyBytes(y)
    ensures x.publication == y.publication && x.posts == y.posts && x.assets == y.assets
  {
    var ax, ay := AssetsSection(x.assets), AssetsSection(y.assets);
    EntrySplit(x.publication.path, y.publication.path, x.publication.source, y.publication.source,
               PostsSection(x.posts) + ax, PostsSection(y.posts) + ay);
    Associate(U32(|x.posts|), Concat(PostRecord, x.posts), ax);
    Associate(U32(|y.posts|), Concat(PostRecord, y.posts), ay);
    SplitFixed(U32(|x.posts|), U32(|y.posts|), Concat(PostRecord, x.posts) + ax, Concat(PostRecord, y.posts) + ay);
    U32RoundTrip(|x.posts|);
    U32RoundTrip(|y.posts|);
    PostRecordPrefixFree();
    ConcatSplit(PostRecord, (post: Post) => WritablePost(post), x.posts, y.posts, ax, ay);
    SplitFixed(U32(|x.assets|), U32(|y.assets|), Concat(AssetRecord, x.assets), Concat(AssetRecord, y.assets));
    U32RoundTrip(|x.assets|);
    U32RoundTrip(|y.assets|);
    AssetRecordPrefixFree();
    assert Concat(AssetRecord, x.assets) + [] == Concat(AssetRecord, y.assets) + [];
    ConcatSplit(AssetRecord, (asset: Asset) => WritableAsset(asset), x.assets, y.assets, [], []);
  }
}
