/** The fields of the revision and snapshot transcripts: each code is prefix-free, so a transcript
    can be read back in only one way. */
module IdentityFields {
  import opened Framing
  import opened Content
  import opened Transcripts
  import opened Documents

  // Field codes.

  function ReferenceField(reference: Reference): Bytes {
    match reference
    case Local(asset) => [0] + (Frame(asset.path) + asset.digest)
    case External(url) => [1] + Frame(url)
  }

  function GeneratedField(asset: DigestedAsset): Bytes {
    Frame(asset.path) + asset.digest
  }

  /** A timestamp with the offset its author wrote. */
  function AuthoredTime(time: OffsetDateTime): (bytes: Bytes)
    ensures |bytes| == 16
  {
    I64(time.unix) + U32(time.nanosecond) + I32(time.offset)
  }

  function UtcTime(time: OffsetDateTime): (bytes: Bytes)
    ensures |bytes| == 12
  {
    I64(time.ToUtc().unix) + U32(time.ToUtc().nanosecond)
  }

  function PublicPostField(post: PublicPost): (bytes: Bytes)
    ensures |bytes| == 60
  {
    post.id + post.revision + UtcTime(post.publishedAt)
  }

  function PostRendererField(renderer: PostRenderer): (bytes: Bytes)
    ensures |bytes| == 6
  {
    [renderer.commonmarkDialect, renderer.rawHtmlDisabled, renderer.codeLanguageClasses,
     renderer.mermaidSanitizedSvg, renderer.rendererVersion, renderer.sanitizerVersion]
  }

  const SITE_SHELL_RENDERER_VERSION_TAG: u8 := 1
  const PUBLIC_ASSET_DELIVERY_POLICY_TAG: u8 := 0

  function SiteRendererField(bundle: Digest): (bytes: Bytes)
    ensures |bytes| == 34
  {
    [SITE_SHELL_RENDERER_VERSION_TAG, PUBLIC_ASSET_DELIVERY_POLICY_TAG] + bundle
  }

  // Values whose lengths fit the eight-byte length field, as any value in memory does.

  ghost predicate SizedAssetRef(asset: DigestedAsset) {
    Sized(asset.path)
  }

  ghost predicate SizedReference(reference: Reference) {
    match reference
    case Local(asset) => Sized(asset.path)
    case External(url) => Sized(url)
  }

  ghost predicate SizedOptional(reference: Option<Reference>) {
    reference.Some? ==> SizedReference(reference.value)
  }

  ghost predicate SizedAll(texts: seq<Bytes>) {
    |texts| < U64_RANGE && forall text | text in texts :: Sized(text)
  }

  ghost predicate SizedReferences(references: seq<Reference>) {
    |references| < U64_RANGE && forall reference | reference in references :: SizedReference(reference)
  }

  ghost predicate SizedAssets(assets: seq<DigestedAsset>) {
    |assets| < U64_RANGE && forall asset | asset in assets :: SizedAssetRef(asset)
  }

  ghost predicate Any<T>(x: T) {
    true
  }

  // Prefix-freeness.

  lemma ReferenceSplit(x: Reference, y: Reference, rest: Bytes)
    requires SizedReference(x) && SizedReference(y) && ReferenceField(y) == ReferenceField(x) + rest
    ensures x == y
  {
    assert ReferenceField(x)[0] == ReferenceField(y)[0];
    if x.Local? {
      var sx, sy := Frame(x.asset.path) + x.asset.digest, Frame(y.asset.path) + y.asset.digest;
      Associate([0], sx, rest);
      SplitFixed([0], [0], sx + rest, sy);
      GeneratedSplit(x.asset, y.asset, rest);
    } else {
      Associate([1], Frame(x.url), rest);
      SplitFixed([1], [1], Frame(x.url) + rest, Frame(y.url));
      assert Frame(y.url) == Frame(y.url) + [];
      FrameSplit(x.url, y.url, rest, []);
    }
  }

  lemma ReferencePrefixFree()
    ensures PrefixFree(ReferenceField, reference => SizedReference(reference))
  {
    forall x: Reference, y: Reference | SizedReference(x) && SizedReference(y) && ReferenceField(x) <= ReferenceField(y)
      ensures x == y
    {
      ReferenceSplit(x, y, Rest(ReferenceField(x), ReferenceField(y)));
    }
  }

  lemma GeneratedSplit(x: DigestedAsset, y: DigestedAsset, rest: Bytes)
    requires SizedAssetRef(x) && SizedAssetRef(y) && GeneratedField(y) == GeneratedField(x) + rest
    ensures x == y
  {
    Associate(Frame(x.path), x.digest, rest);
    FrameSplit(x.path, y.path, x.digest + rest, y.digest);
    assert y.digest == y.digest + [];
    SplitFixed(x.digest, y.digest, rest, []);
  }

  lemma GeneratedPrefixFree()
    ensures PrefixFree(GeneratedField, asset => SizedAssetRef(asset))
  {
    forall x: DigestedAsset, y: DigestedAsset
      | SizedAssetRef(x) && SizedAssetRef(y) && GeneratedField(x) <= GeneratedField(y)
      ensures x == y
    {
      GeneratedSplit(x, y, Rest(GeneratedField(x), GeneratedField(y)));
    }
  }

  lemma SignedSplit(m: i64, n: i64, s: Bytes, t: Bytes)
    requires I64(m) + s == I64(n) + t
    ensures m == n && s == t
  {
    U64Split(m % U64_RANGE, n % U64_RANGE, s, t);
  }

  lemma U32Split(m: nat, n: nat, s: Bytes, t: Bytes)
    requires m < U32_RANGE && n < U32_RANGE && U32(m) + s == U32(n) + t
    ensures m == n && s == t
  {
    SplitFixed(U32(m), U32(n), s, t);
    U32RoundTrip(m);
    U32RoundTrip(n);
  }

  /** Two UTC fields agree exactly on equal instants, whatever the offsets. */
  lemma UtcTimeIsTheInstant(x: OffsetDateTime, y: OffsetDateTime)
    ensures UtcTime(x) == UtcTime(y) <==> x.ToUtc() == y.ToUtc()
  {
    if UtcTime(x) == UtcTime(y) {
      SignedSplit(x.unix, y.unix, U32(x.nanosecond), U32(y.nanosecond));
      assert U32(x.nanosecond) + [] == U32(y.nanosecond) + [];
      U32Split(x.nanosecond, y.nanosecond, [], []);
    }
  }

  lemma AuthoredTimeSplit(x: OffsetDateTime, y: OffsetDateTime, s: Bytes, t: Bytes)
    requires AuthoredTime(x) + s == AuthoredTime(y) + t
    ensures x == y && s == t
  {
    SplitFixed(AuthoredTime(x), AuthoredTime(y), s, t);
    Associate(I64(x.unix), U32(x.nanosecond), I32(x.offset));
    Associate(I64(y.unix), U32(y.nanosecond), I32(y.offset));
    SignedSplit(x.unix, y.unix, U32(x.nanosecond) + I32(x.offset), U32(y.nanosecond) + I32(y.offset));
    U32Split(x.nanosecond, y.nanosecond, I32(x.offset), I32(y.offset));
    assert I32(x.offset) + [] == I32(y.offset) + [];
    U32Split(x.offset % U32_RANGE, y.offset % U32_RANGE, [], []);
  }

  lemma AuthoredTimePrefixFree()
    ensures PrefixFree(AuthoredTime, Any)
  {
    forall x: OffsetDateTime, y: OffsetDateTime | AuthoredTime(x) <= AuthoredTime(y) ensures x == y {
      assert AuthoredTime(x) + Rest(AuthoredTime(x), AuthoredTime(y)) == AuthoredTime(y) + [];
      AuthoredTimeSplit(x, y, Rest(AuthoredTime(x), AuthoredTime(y)), []);
    }
  }

  /** A public post with its publication time reduced to the instant. */
  function AtInstant(post: PublicPost): PublicPost {
    post.(publishedAt := post.publishedAt.ToUtc())
  }

  lemma PublicPostFieldIsTheInstant(x: PublicPost, y: PublicPost)
    ensures PublicPostField(x) == PublicPostField(y) <==> AtInstant(x) == AtInstant(y)
  {
    UtcTimeIsTheInstant(x.publishedAt, y.publishedAt);
    if PublicPostField(x) == PublicPostField(y) {
      Associate(x.id, x.revision, UtcTime(x.publishedAt));
      Associate(y.id, y.revision, UtcTime(y.publishedAt));
      SplitFixed(x.id, y.id, x.revision + UtcTime(x.publishedAt), y.revision + UtcTime(y.publishedAt));
      SplitFixed(x.revision, y.revision, UtcTime(x.publishedAt), UtcTime(y.publishedAt));
    }
  }

  lemma PostRendererSplit(x: PostRenderer, y: PostRenderer, s: Bytes, t: Bytes)
    requires PostRendererField(x) + s == PostRendererField(y) + t
    ensures x == y && s == t
  {
    var fx, fy := PostRendererField(x), PostRendererField(y);
    SplitFixed(fx, fy, s, t);
    assert fx[0] == fy[0] && fx[1] == fy[1] && fx[2] == fy[2] && fx[3] == fy[3] && fx[4] == fy[4] && fx[5] == fy[5];
  }

  lemma OptionalReferenceSplit(x: Option<Reference>, y: Option<Reference>, s: Bytes, t: Bytes)
    requires SizedOptional(x) && SizedOptional(y)
    requires Optional(ReferenceField, x) + s == Optional(ReferenceField, y) + t
    ensures x == y && s == t
  {
    ReferencePrefixFree();
    OptionalSplit(ReferenceField, reference => SizedReference(reference), x, y, s, t);
  }

  lemma ReferencesSplit(xs: seq<Reference>, ys: seq<Reference>, s: Bytes, t: Bytes)
    requires SizedReferences(xs) && SizedReferences(ys)
    requires Counted(ReferenceField, xs) + s == Counted(ReferenceField, ys) + t
    ensures xs == ys && s == t
  {
    ReferencePrefixFree();
    CountedSplit(ReferenceField, reference => SizedReference(reference), xs, ys, s, t);
  }

  lemma GeneratedAssetsSplit(xs: seq<DigestedAsset>, ys: seq<DigestedAsset>)
    requires SizedAssets(xs) && SizedAssets(ys)
    requires Counted(GeneratedField, xs) == Counted(GeneratedField, ys)
    ensures xs == ys
  {
    GeneratedPrefixFree();
    assert Counted(GeneratedField, xs) + [] == Counted(GeneratedField, ys) + [];
    CountedSplit(GeneratedField, asset => SizedAssetRef(asset), xs, ys, [], []);
  }

  lemma TextsSplit(xs: seq<Bytes>, ys: seq<Bytes>, s: Bytes, t: Bytes)
    requires SizedAll(xs) && SizedAll(ys)
    requires Counted(Frame, xs) + s == Counted(Frame, ys) + t
    ensures xs == ys && s == t
  {
    FramePrefixFree();
    CountedSplit(Frame, Sized, xs, ys, s, t);
  }

  // Feeding the fields.

  method FeedReference(transcript: Transcript, reference: Reference)
    modifies transcript
    ensures transcript.fed == old(transcript.fed) + ReferenceField(reference)
  {
    ghost var start := transcript.fed;
    match reference
    case Local(asset) =>
      transcript.PutTag(0);
      transcript.FramedBytes(asset.path);
      transcript.FixedBytes(asset.digest);
      Associate4(start, [0], Frame(asset.path), asset.digest);
    case External(url) =>
      transcript.PutTag(1);
      transcript.FramedBytes(url);
      Associate(start, [1], Frame(url));
  }

  method FeedOptionalReference(transcript: Transcript, reference: Option<Reference>)
    modifies transcript
    ensures transcript.fed == old(transcript.fed) + Optional(ReferenceField, reference)
  {
    ghost var start := transcript.fed;
    match reference
    case Some(value) =>
      transcript.PutTag(1);
      FeedReference(transcript, value);
      Associate(start, [1], ReferenceField(value));
    case None =>
      transcript.PutTag(0);
  }

  method FeedOptionalText(transcript: Transcript, text: Option<Bytes>)
    modifies transcript
    ensures transcript.fed == old(transcript.fed) + Optional(Frame, text)
  {
    ghost var start := transcript.fed;
    match text
    case Some(value) =>
      transcript.PutTag(1);
      transcript.FramedBytes(value);
      Associate(start, [1], Frame(value));
    case None =>
      transcript.PutTag(0);
  }

  method FeedReferences(transcript: Transcript, references: seq<Reference>)
    modifies transcript
    ensures transcript.fed == old(transcript.fed) + Counted(ReferenceField, references)
  {
    transcript.SequenceLen(|references|);
    ghost var start := transcript.fed;
    for i := 0 to |references|
      invariant transcript.fed == start + Concat(ReferenceField, references[..i])
    {
      FeedReference(transcript, references[i]);
      ConcatTake(ReferenceField, references, i);
      Associate(start, Concat(ReferenceField, references[..i]), ReferenceField(references[i]));
    }
    assert references[..|references|] == references;
    Associate(old(transcript.fed), U64(|references|), Concat(ReferenceField, references));
  }

  method FeedTexts(transcript: Transcript, texts: seq<Bytes>)
    modifies transcript
    ensures transcript.fed == old(transcript.fed) + Counted(Frame, texts)
  {
    transcript.SequenceLen(|texts|);
    ghost var start := transcript.fed;
    for i := 0 to |texts|
      invariant transcript.fed == start + Concat(Frame, texts[..i])
    {
      transcript.FramedBytes(texts[i]);
      ConcatTake(Frame, texts, i);
      Associate(start, Concat(Frame, texts[..i]), Frame(texts[i]));
    }
    assert texts[..|texts|] == texts;
    Associate(old(transcript.fed), U64(|texts|), Concat(Frame, texts));
  }

  method FeedGenerated(transcript: Transcript, assets: seq<DigestedAsset>)
    modifies transcript
    ensures transcript.fed == old(transcript.fed) + Counted(GeneratedField, assets)
  {
    transcript.SequenceLen(|assets|);
    ghost var start := transcript.fed;
    for i := 0 to |assets|
      invariant transcript.fed == start + Concat(GeneratedField, assets[..i])
    {
      ghost var before := transcript.fed;
      transcript.FramedBytes(assets[i].path);
      transcript.FixedBytes(assets[i].digest);
      Associate(before, Frame(assets[i].path), assets[i].digest);
      ConcatTake(GeneratedField, assets, i);
      Associate(start, Concat(GeneratedField, assets[..i]), GeneratedField(assets[i]));
    }
    assert assets[..|assets|] == assets;
    Associate(old(transcript.fed), U64(|assets|), Concat(GeneratedField, assets));
  }

  method FeedUtcTime(transcript: Transcript, time: OffsetDateTime)
    modifies transcript
    ensures transcript.fed == old(transcript.fed) + UtcTime(time)
  {
    ghost var start := transcript.fed;
    var utc := time.ToUtc();
    transcript.FixedBytes(I64(utc.unix));
    transcript.FixedBytes(U32(utc.nanosecond));
    Associate(start, I64(utc.unix), U32(utc.nanosecond));
  }

  method FeedAuthoredTime(transcript: Transcript, time: OffsetDateTime)
    modifies transcript
    ensures transcript.fed == old(transcript.fed) + AuthoredTime(time)
  {
    ghost var start := transcript.fed;
    transcript.FixedBytes(I64(time.unix));
    transcript.FixedBytes(U32(time.nanosecond));
    transcript.FixedBytes(I32(time.offset));
    Associate4(start, I64(time.unix), U32(time.nanosecond), I32(time.offset));
    Associate(I64(time.unix), U32(time.nanosecond), I32(time.offset));
  }

  method FeedPublicPost(transcript: Transcript, post: PublicPost)
    modifies transcript
    ensures transcript.fed == old(transcript.fed) + PublicPostField(post)
  {
    ghost var start := transcript.fed;
    transcript.FixedBytes(post.id);
    transcript.FixedBytes(post.revision);
    FeedUtcTime(transcript, post.publishedAt);
    Associate4(start, post.id, post.revision, UtcTime(post.publishedAt));
    Associate(post.id, post.revision, UtcTime(post.publishedAt));
  }

  method FeedPublicPosts(transcript: Transcript, posts: seq<PublicPost>)
    modifies transcript
    ensures transcript.fed == old(transcript.fed) + Counted(PublicPostField, posts)
  {
    transcript.SequenceLen(|posts|);
    ghost var start := transcript.fed;
    for i := 0 to |posts|
      invariant transcript.fed == start + Concat(PublicPostField, posts[..i])
    {
      FeedPublicPost(transcript, posts[i]);
      ConcatTake(PublicPostField, posts, i);
      Associate(start, Concat(PublicPostField, posts[..i]), PublicPostField(posts[i]));
    }
    assert posts[..|posts|] == posts;
    Associate(old(transcript.fed), U64(|posts|), Concat(PublicPostField, posts));
  }
}
