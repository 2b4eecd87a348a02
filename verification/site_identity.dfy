/** Site snapshot identities: the publication, its resolved assets, the shell and the public posts. */
module SiteIdentities {
  import opened Framing
  import opened Ordering
  import opened Content
  import opened Transcripts
  import opened KeyedSorts
  import opened Documents
  import opened IdentityFields
  import opened ContentIdentities
  import opened Identities

  datatype SiteParts = SiteParts(
    content: Digest,
    favicon: Option<Reference>,
    image: Option<Reference>,
    origins: seq<Bytes>,
    references: seq<Reference>,
    bundle: Digest,
    shell: Digest,
    posts: seq<PublicPost>)

  function SiteImages(p: SiteParts): Bytes {
    p.content + Optional(ReferenceField, p.favicon) + Optional(ReferenceField, p.image)
  }

  function SiteCollections(p: SiteParts): Bytes {
    Counted(Frame, p.origins) + Counted(ReferenceField, p.references)
  }

  function SiteOutput(p: SiteParts): Bytes {
    SiteRendererField(p.bundle) + p.shell + Counted(PublicPostField, p.posts)
  }

  function SiteTranscript(p: SiteParts): Bytes {
    Header(Ascii("maincopy-site-snapshot"), 1) + SiteImages(p) + SiteCollections(p) + SiteOutput(p)
  }

  ghost predicate SizedSite(p: SiteParts) {
    && SizedOptional(p.favicon) && SizedOptional(p.image) && SizedAll(p.origins)
    && SizedReferences(p.references) && |p.posts| < U64_RANGE
  }

  lemma {:induction false} InstantsEncodeAlike(posts: seq<PublicPost>)
    ensures Concat(PublicPostField, posts) == Concat(PublicPostField, Map(AtInstant, posts))
  {
    if posts != [] {
      PublicPostFieldIsTheInstant(posts[0], AtInstant(posts[0]));
      InstantsEncodeAlike(posts[1..]);
      assert Map(AtInstant, posts)[1..] == Map(AtInstant, posts[1..]);
    }
  }

  lemma InstantsPrefixFree()
    ensures PrefixFree(PublicPostField, post => post == AtInstant(post))
  {
    forall x: PublicPost, y: PublicPost
      | x == AtInstant(x) && y == AtInstant(y) && PublicPostField(x) <= PublicPostField(y)
      ensures x == y
    {
      assert PublicPostField(x) == PublicPostField(y);
      PublicPostFieldIsTheInstant(x, y);
    }
  }

  lemma PublicPostsSplit(xs: seq<PublicPost>, ys: seq<PublicPost>)
    requires |xs| < U64_RANGE && |ys| < U64_RANGE
    ensures Counted(PublicPostField, xs) == Counted(PublicPostField, ys) <==> Map(AtInstant, xs) == Map(AtInstant, ys)
  {
    var ix, iy := Map(AtInstant, xs), Map(AtInstant, ys);
    InstantsEncodeAlike(xs);
    InstantsEncodeAlike(ys);
    if Counted(PublicPostField, xs) == Counted(PublicPostField, ys) {
      InstantsPrefixFree();
      MapMembers(AtInstant, xs);
      MapMembers(AtInstant, ys);
      assert Counted(PublicPostField, ix) + [] == Counted(PublicPostField, iy) + [];
      CountedSplit(PublicPostField, post => post == AtInstant(post), ix, iy, [], []);
    }
  }

  lemma SiteImagesSplit(x: SiteParts, y: SiteParts, s: Bytes, t: Bytes)
    requires SizedSite(x) && SizedSite(y) && SiteImages(x) + s == SiteImages(y) + t
    ensures x.content == y.content && x.favicon == y.favicon && x.image == y.image && s == t
  {
    var fx, fy := Optional(ReferenceField, x.favicon), Optional(ReferenceField, y.favicon);
    var ix, iy := Optional(ReferenceField, x.image), Optional(ReferenceField, y.image);
    Associate4(x.content, fx, ix, s);
    Associate4(y.content, fy, iy, t);
    SplitFixed(x.content, y.content, fx + (ix + s), fy + (iy + t));
    OptionalReferenceSplit(x.favicon, y.favicon, ix + s, iy + t);
    OptionalReferenceSplit(x.image, y.image, s, t);
  }

  lemma SiteCollectionsSplit(x: SiteParts, y: SiteParts, s: Bytes, t: Bytes)
    requires SizedSite(x) && SizedSite(y) && SiteCollections(x) + s == SiteCollections(y) + t
    ensures x.origins == y.origins && x.references == y.references && s == t
  {
    var rx, ry := Counted(ReferenceField, x.references), Counted(ReferenceField, y.references);
    Associate(Counted(Frame, x.origins), rx, s);
    Associate(Counted(Frame, y.origins), ry, t);
    TextsSplit(x.origins, y.origins, rx + s, ry + t);
    ReferencesSplit(x.references, y.references, s, t);
  }

  lemma SiteOutputSplit(x: SiteParts, y: SiteParts)
    requires SizedSite(x) && SizedSite(y) && SiteOutput(x) == SiteOutput(y)
    ensures x.bundle == y.bundle && x.shell == y.shell && Map(AtInstant, x.posts) == Map(AtInstant, y.posts)
  {
    var px, py := Counted(PublicPostField, x.posts), Counted(PublicPostField, y.posts);
    Associate(SiteRendererField(x.bundle), x.shell, px);
    Associate(SiteRendererField(y.bundle), y.shell, py);
    SplitFixed(SiteRendererField(x.bundle), SiteRendererField(y.bundle), x.shell + px, y.shell + py);
    var tags := [SITE_SHELL_RENDERER_VERSION_TAG, PUBLIC_ASSET_DELIVERY_POLICY_TAG];
    SplitFixed(tags, tags, x.bundle, y.bundle);
    SplitFixed(x.shell, y.shell, px, py);
    PublicPostsSplit(x.posts, y.posts);
  }

  /** The parts a snapshot transcript can be read back to: publication times only as instants. */
  function Readable(p: SiteParts): SiteParts {
    p.(posts := Map(AtInstant, p.posts))
  }

  lemma SiteTranscriptIsInjective(x: SiteParts, y: SiteParts)
    requires SizedSite(x) && SizedSite(y)
    ensures SiteTranscript(x) == SiteTranscript(y) <==> Readable(x) == Readable(y)
  {
    var header := Header(Ascii("maincopy-site-snapshot"), 1);
    if SiteTranscript(x) == SiteTranscript(y) {
      Associate4(header, SiteImages(x), SiteCollections(x), SiteOutput(x));
      Associate4(header, SiteImages(y), SiteCollections(y), SiteOutput(y));
      var sx, sy := SiteCollections(x) + SiteOutput(x), SiteCollections(y) + SiteOutput(y);
      SplitFixed(header, header, SiteImages(x) + sx, SiteImages(y) + sy);
      SiteImagesSplit(x, y, sx, sy);
      SiteCollectionsSplit(x, y, SiteOutput(x), SiteOutput(y));
      SiteOutputSplit(x, y);
    }
    if Readable(x) == Readable(y) {
      PublicPostsSplit(x.posts, y.posts);
      assert SiteImages(x) == SiteImages(y) && SiteCollections(x) == SiteCollections(y);
    }
  }

  method DigestSiteParts(p: SiteParts, hash: Hash) returns (digest: Digest)
    ensures digest == hash(SITE_SNAPSHOT_CONTEXT, SiteTranscript(p))
  {
    var transcript := new Transcript(SITE_SNAPSHOT_CONTEXT, Ascii("maincopy-site-snapshot"), 1);
    ghost var header := transcript.fed;
    transcript.FixedBytes(p.content);
    FeedOptionalReference(transcript, p.favicon);
    FeedOptionalReference(transcript, p.image);
    ghost var favicon, image := Optional(ReferenceField, p.favicon), Optional(ReferenceField, p.image);
    Associate4(header, p.content, favicon, image);
    Associate(p.content, favicon, image);
    ghost var middle := transcript.fed;
    FeedTexts(transcript, p.origins);
    FeedReferences(transcript, p.references);
    Associate(middle, Counted(Frame, p.origins), Counted(ReferenceField, p.references));
    ghost var last := transcript.fed;
    transcript.FixedBytes(SiteRendererField(p.bundle));
    transcript.FixedBytes(p.shell);
    FeedPublicPosts(transcript, p.posts);
    Associate4(last, SiteRendererField(p.bundle), p.shell, Counted(PublicPostField, p.posts));
    Associate(SiteRendererField(p.bundle), p.shell, Counted(PublicPostField, p.posts));
    digest := transcript.Finish(hash);
  }

  // Snapshots.

  datatype SnapshotInput = SnapshotInput(
    publication: PublicationSettings,
    assets: ResolvedSiteAssets,
    bundle: Digest,
    shell: Digest,
    posts: seq<PublicPost>)

  function SnapshotParts(input: SnapshotInput, references: seq<Reference>, origins: seq<Bytes>, posts: seq<PublicPost>,
                         hash: Hash): SiteParts {
    SiteParts(PublicationContentDigest(input.publication, hash), input.assets.favicon, input.assets.image, origins,
              references, input.bundle, input.shell, posts)
  }

  function SiteSnapshot(input: SnapshotInput, hash: Hash): Identified {
    var references := SortUnique(ReferenceKey, input.assets.references);
    var origins := SortUnique(Itself, input.assets.allowedOrigins);
    var posts := SortUnique(PublicPostKey, input.posts);
    if references.Duplicate? then Refused(DuplicateReference(ShowKey(references.key)))
    else if origins.Duplicate? then Refused(DuplicateOrigin(origins.key))
    else if posts.Duplicate? then Refused(DuplicatePost(posts.key))
    else if input.assets.sourceBinding != PublicationBinding(input.publication, hash) then
      Refused(BindingMismatch(PublicationTarget))
    else
      Identity(hash(SITE_SNAPSHOT_CONTEXT,
                    SiteTranscript(SnapshotParts(input, references.items, origins.items, posts.items, hash))))
  }

  method DigestSiteSnapshot(input: SnapshotInput, hash: Hash) returns (r: Identified)
    ensures r == SiteSnapshot(input, hash)
  {
    var references := SortedWithoutRepeats(ReferenceKey, input.assets.references);
    if references.Duplicate? {
      return Refused(DuplicateReference(ShowKey(references.key)));
    }
    var origins := SortedWithoutRepeats(Itself, input.assets.allowedOrigins);
    if origins.Duplicate? {
      return Refused(DuplicateOrigin(origins.key));
    }
    var posts := SortedWithoutRepeats(PublicPostKey, input.posts);
    if posts.Duplicate? {
      return Refused(DuplicatePost(posts.key));
    }
    var content := DigestPublicationContent(input.publication, hash);
    var binding := BindPublicationSource(input.publication, hash);
    if input.assets.sourceBinding != binding {
      return Refused(BindingMismatch(PublicationTarget));
    }
    var digest := DigestSiteParts(
      SiteParts(content, input.assets.favicon, input.assets.image, origins.items, references.items,
                input.bundle, input.shell, posts.items), hash);
    return Identity(digest);
  }

  ghost predicate SizedSnapshot(input: SnapshotInput) {
    && SizedOptional(input.assets.favicon) && SizedOptional(input.assets.image)
    && SizedAll(input.assets.allowedOrigins) && SizedReferences(input.assets.references) && |input.posts| < U64_RANGE
  }

  /** The encoded parts of an accepted input. */
  function AcceptedParts(input: SnapshotInput, hash: Hash): SiteParts
    requires SiteSnapshot(input, hash).Identity?
  {
    SnapshotParts(input, SortUnique(ReferenceKey, input.assets.references).items,
                  SortUnique(Itself, input.assets.allowedOrigins).items,
                  SortUnique(PublicPostKey, input.posts).items, hash)
  }

  lemma SiteSnapshotAccepts(input: SnapshotInput, hash: Hash)
    ensures SiteSnapshot(input, hash).Identity? <==>
            && DistinctKeys(ReferenceKey, input.assets.references) && DistinctKeys(Itself, input.assets.allowedOrigins)
            && DistinctKeys(PublicPostKey, input.posts)
            && input.assets.sourceBinding == PublicationBinding(input.publication, hash)
    ensures !DistinctKeys(ReferenceKey, input.assets.references) ==>
              SiteSnapshot(input, hash).Refused? && SiteSnapshot(input, hash).error.DuplicateReference?
  {
    SortUniqueMeaning(ReferenceKey, input.assets.references);
    SortUniqueMeaning(Itself, input.assets.allowedOrigins);
    SortUniqueMeaning(PublicPostKey, input.posts);
  }

  lemma SiteSnapshotForgetsOrder(left: SnapshotInput, right: SnapshotInput, hash: Hash)
    requires right == left.(
               assets := left.assets.(references := right.assets.references,
                                      allowedOrigins := right.assets.allowedOrigins),
               posts := right.posts)
    requires multiset(left.assets.references) == multiset(right.assets.references)
    requires multiset(left.assets.allowedOrigins) == multiset(right.assets.allowedOrigins)
    requires multiset(left.posts) == multiset(right.posts)
    ensures SiteSnapshot(left, hash) == SiteSnapshot(right, hash)
  {
    SortUniqueForgetsOrder(ReferenceKey, left.assets.references, right.assets.references);
    SortUniqueForgetsOrder(Itself, left.assets.allowedOrigins, right.assets.allowedOrigins);
    SortUniqueForgetsOrder(PublicPostKey, left.posts, right.posts);
  }

  lemma SortedSnapshotIsSized(input: SnapshotInput, hash: Hash)
    requires SizedSnapshot(input) && SiteSnapshot(input, hash).Identity?
    ensures SizedSite(AcceptedParts(input, hash))
  {
    SortUniqueMeaning(ReferenceKey, input.assets.references);
    SortUniqueMeaning(Itself, input.assets.allowedOrigins);
    SortUniqueMeaning(PublicPostKey, input.posts);
    SameMembers(SortUnique(ReferenceKey, input.assets.references).items, input.assets.references);
    SameMembers(SortUnique(Itself, input.assets.allowedOrigins).items, input.assets.allowedOrigins);
    SameMembers(SortUnique(PublicPostKey, input.posts).items, input.posts);
  }

  lemma InstantsKeepKeys(posts: seq<PublicPost>)
    ensures Map(PublicPostKey, Map(AtInstant, posts)) == Map(PublicPostKey, posts)
    ensures Sorted(ByKey(PublicPostKey), posts) ==> Sorted(ByKey(PublicPostKey), Map(AtInstant, posts))
  {
    var instants := Map(AtInstant, posts);
    assert Map(PublicPostKey, instants) == Map(PublicPostKey, posts);
    if Sorted(ByKey(PublicPostKey), posts) {
      forall i, j | 0 <= i < j < |instants| ensures ByKey(PublicPostKey)(instants[i], instants[j]) {
        assert ByKey(PublicPostKey)(posts[i], posts[j]);
      }
    }
  }

  /** Sorting by id and reducing times to instants commute. */
  lemma InstantsSort(posts: seq<PublicPost>)
    requires DistinctKeys(PublicPostKey, posts)
    ensures SortUnique(PublicPostKey, posts).Unique? && SortUnique(PublicPostKey, Map(AtInstant, posts)).Unique?
    ensures Map(AtInstant, SortUnique(PublicPostKey, posts).items)
            == SortUnique(PublicPostKey, Map(AtInstant, posts)).items
  {
    var instants := Map(AtInstant, posts);
    SortUniqueMeaning(PublicPostKey, posts);
    var sorted := SortUnique(PublicPostKey, posts).items;
    InstantsKeepKeys(posts);
    InstantsKeepKeys(sorted);
    SortUniqueMeaning(PublicPostKey, instants);
    MapPermutes(AtInstant, posts, sorted);
    SortedArrangement(PublicPostKey, instants, Map(AtInstant, sorted));
  }

  /** Accepted snapshots have one transcript exactly when their scalar parts are equal and their
      references, origins and public posts hold the same members, times compared as instants. */
  lemma SiteSnapshotIsUnordered(left: SnapshotInput, right: SnapshotInput, hash: Hash)
    requires SizedSnapshot(left) && SizedSnapshot(right)
    requires SiteSnapshot(left, hash).Identity? && SiteSnapshot(right, hash).Identity?
    ensures SiteTranscript(AcceptedParts(left, hash)) == SiteTranscript(AcceptedParts(right, hash)) <==>
            && PublicationContentDigest(left.publication, hash) == PublicationContentDigest(right.publication, hash)
            && left.assets.favicon == right.assets.favicon && left.assets.image == right.assets.image
            && multiset(left.assets.allowedOrigins) == multiset(right.assets.allowedOrigins)
            && multiset(left.assets.references) == multiset(right.assets.references)
            && left.bundle == right.bundle && left.shell == right.shell
            && multiset(Map(AtInstant, left.posts)) == multiset(Map(AtInstant, right.posts))
  {
    SortedSnapshotIsSized(left, hash);
    SortedSnapshotIsSized(right, hash);
    SiteTranscriptIsInjective(AcceptedParts(left, hash), AcceptedParts(right, hash));
    SortUniqueKeepsMembers(ReferenceKey, left.assets.references, right.assets.references);
    SortUniqueKeepsMembers(Itself, left.assets.allowedOrigins, right.assets.allowedOrigins);
    SiteSnapshotAccepts(left, hash);
    SiteSnapshotAccepts(right, hash);
    InstantsSort(left.posts);
    InstantsSort(right.posts);
    SortUniqueKeepsMembers(PublicPostKey, Map(AtInstant, left.posts), Map(AtInstant, right.posts));
  }
}
