/** Post revision and site snapshot identities. */
module Identities {
  import opened Framing
  import opened Ordering
  import opened Content
  import opened Transcripts
  import opened KeyedSorts
  import opened Documents
  import opened IdentityFields
  import opened ContentIdentities

  const POST_REVISION_CONTEXT := "maincopy post revision digest v1"
  const SITE_SNAPSHOT_CONTEXT := "maincopy site snapshot digest v1"

  datatype Target = PostTarget | PublicationTarget

  datatype IdentityError =
    | BindingMismatch(target: Target)
    | PolicyMismatch
    | DuplicateReference(value: Bytes)
    | DuplicateGenerated(path: Bytes)
    | DuplicateOrigin(origin: Bytes)
    | DuplicatePost(id: Bytes)

  datatype Identified = Identity(digest: Digest) | Refused(error: IdentityError)

  /** `kind:value`, the printed form of a reference key. */
  function ShowKey(key: Bytes): Bytes {
    if key == [] then [] else [if key[0] == 0 then 48 else 49, 58] + key[1..]
  }

  // The revision transcript.

  datatype RevisionParts = RevisionParts(
    content: Digest,
    image: Option<Reference>,
    references: seq<Reference>,
    renderer: PostRenderer,
    article: Bytes,
    generated: seq<DigestedAsset>)

  function RevisionAssets(p: RevisionParts): Bytes {
    p.content + Optional(ReferenceField, p.image) + Counted(ReferenceField, p.references)
  }

  function RevisionOutput(p: RevisionParts): Bytes {
    PostRendererField(p.renderer) + Frame(p.article) + Counted(GeneratedField, p.generated)
  }

  function RevisionTranscript(p: RevisionParts): Bytes {
    Header(Ascii("maincopy-post-revision"), 1) + RevisionAssets(p) + RevisionOutput(p)
  }

  ghost predicate SizedRevision(p: RevisionParts) {
    && SizedOptional(p.image) && SizedReferences(p.references) && Sized(p.article) && SizedAssets(p.generated)
  }

  lemma RevisionAssetsSplit(x: RevisionParts, y: RevisionParts, s: Bytes, t: Bytes)
    requires SizedRevision(x) && SizedRevision(y) && RevisionAssets(x) + s == RevisionAssets(y) + t
    ensures x.content == y.content && x.image == y.image && x.references == y.references && s == t
  {
    var ix, iy := Optional(ReferenceField, x.image), Optional(ReferenceField, y.image);
    var rx, ry := Counted(ReferenceField, x.references), Counted(ReferenceField, y.references);
    Associate4(x.content, ix, rx, s);
    Associate4(y.content, iy, ry, t);
    SplitFixed(x.content, y.content, ix + (rx + s), iy + (ry + t));
    OptionalReferenceSplit(x.image, y.image, rx + s, ry + t);
    ReferencesSplit(x.references, y.references, s, t);
  }

  lemma RevisionOutputSplit(x: RevisionParts, y: RevisionParts)
    requires SizedRevision(x) && SizedRevision(y) && RevisionOutput(x) == RevisionOutput(y)
    ensures x.renderer == y.renderer && x.article == y.article && x.generated == y.generated
  {
    var gx, gy := Counted(GeneratedField, x.generated), Counted(GeneratedField, y.generated);
    Associate(PostRendererField(x.renderer), Frame(x.article), gx);
    Associate(PostRendererField(y.renderer), Frame(y.article), gy);
    PostRendererSplit(x.renderer, y.renderer, Frame(x.article) + gx, Frame(y.article) + gy);
    FrameSplit(x.article, y.article, gx, gy);
    GeneratedAssetsSplit(x.generated, y.generated);
  }

  /** A revision transcript can be read back: it determines each of its parts. */
  lemma RevisionTranscriptIsInjective(x: RevisionParts, y: RevisionParts)
    requires SizedRevision(x) && SizedRevision(y)
    ensures RevisionTranscript(x) == RevisionTranscript(y) <==> x == y
  {
    var header := Header(Ascii("maincopy-post-revision"), 1);
    if RevisionTranscript(x) == RevisionTranscript(y) {
      Associate(header, RevisionAssets(x), RevisionOutput(x));
      Associate(header, RevisionAssets(y), RevisionOutput(y));
      SplitFixed(header, header, RevisionAssets(x) + RevisionOutput(x), RevisionAssets(y) + RevisionOutput(y));
      RevisionAssetsSplit(x, y, RevisionOutput(x), RevisionOutput(y));
      RevisionOutputSplit(x, y);
    }
  }

  method DigestRevisionParts(p: RevisionParts, hash: Hash) returns (digest: Digest)
    ensures digest == hash(POST_REVISION_CONTEXT, RevisionTranscript(p))
  {
    var transcript := new Transcript(POST_REVISION_CONTEXT, Ascii("maincopy-post-revision"), 1);
    ghost var header := transcript.fed;
    transcript.FixedBytes(p.content);
    FeedOptionalReference(transcript, p.image);
    FeedReferences(transcript, p.references);
    Associate4(header, p.content, Optional(ReferenceField, p.image), Counted(ReferenceField, p.references));
    Associate(p.content, Optional(ReferenceField, p.image), Counted(ReferenceField, p.references));
    ghost var middle := transcript.fed;
    transcript.FixedBytes(PostRendererField(p.renderer));
    transcript.FramedBytes(p.article);
    FeedGenerated(transcript, p.generated);
    Associate4(middle, PostRendererField(p.renderer), Frame(p.article), Counted(GeneratedField, p.generated));
    Associate(PostRendererField(p.renderer), Frame(p.article), Counted(GeneratedField, p.generated));
    digest := transcript.Finish(hash);
  }

  // Post revisions.

  datatype RevisionInput = RevisionInput(
    document: PostDocument,
    assets: ResolvedPostAssets,
    site: Option<ResolvedSiteAssets>,
    renderer: PostRenderer,
    article: Bytes,
    generated: seq<DigestedAsset>)

  /** What is encoded for an input whose collections have been put in order. */
  function PartsOf(input: RevisionInput, references: seq<Reference>, generated: seq<DigestedAsset>,
                   hash: Hash): RevisionParts {
    RevisionParts(PostContentDigest(input.document, hash), input.assets.image, references, input.renderer,
                  input.article, generated)
  }

  predicate SourceBound(input: RevisionInput, hash: Hash) {
    input.assets.sourceBinding == PostBinding(input.document, PostContentDigest(input.document, hash), hash)
  }

  predicate PolicyBound(input: RevisionInput) {
    input.site.Some? ==> input.assets.policyBinding == input.site.value.policyBinding
  }

  function PostRevision(input: RevisionInput, hash: Hash): Identified {
    var references := SortUnique(ReferenceKey, input.assets.references);
    var generated := SortUnique(AssetPath, input.generated);
    if references.Duplicate? then Refused(DuplicateReference(ShowKey(references.key)))
    else if generated.Duplicate? then Refused(DuplicateGenerated(generated.key))
    else if !SourceBound(input, hash) then Refused(BindingMismatch(PostTarget))
    else if !PolicyBound(input) then Refused(PolicyMismatch)
    else Identity(hash(POST_REVISION_CONTEXT,
                       RevisionTranscript(PartsOf(input, references.items, generated.items, hash))))
  }

  method DigestPostRevision(input: RevisionInput, hash: Hash) returns (r: Identified)
    ensures r == PostRevision(input, hash)
  {
    var references := SortedWithoutRepeats(ReferenceKey, input.assets.references);
    if references.Duplicate? {
      return Refused(DuplicateReference(ShowKey(references.key)));
    }
    var generated := SortedWithoutRepeats(AssetPath, input.generated);
    if generated.Duplicate? {
      return Refused(DuplicateGenerated(generated.key));
    }
    var content := DigestPostContent(input.document, hash);
    var binding := BindPostSource(input.document, content, hash);
    if input.assets.sourceBinding != binding {
      return Refused(BindingMismatch(PostTarget));
    }
    if input.site.Some? && input.assets.policyBinding != input.site.value.policyBinding {
      return Refused(PolicyMismatch);
    }
    var digest := DigestRevisionParts(
      RevisionParts(content, input.assets.image, references.items, input.renderer, input.article,
                    generated.items), hash);
    return Identity(digest);
  }

  ghost predicate SizedInput(input: RevisionInput) {
    && SizedOptional(input.assets.image) && SizedReferences(input.assets.references)
    && Sized(input.article) && SizedAssets(input.generated)
  }

  /** The transcript behind an accepted input. */
  function RevisionTranscriptOf(input: RevisionInput, hash: Hash): Bytes
    requires PostRevision(input, hash).Identity?
  {
    RevisionTranscript(PartsOf(input, SortUnique(ReferenceKey, input.assets.references).items,
                               SortUnique(AssetPath, input.generated).items, hash))
  }

  /** Exactly the inputs without a repeated key and with both bindings in place are accepted; a
      repeated reference is refused before anything else is looked at. */
  lemma PostRevisionAccepts(input: RevisionInput, hash: Hash)
    ensures PostRevision(input, hash).Identity? <==>
            && DistinctKeys(ReferenceKey, input.assets.references) && DistinctKeys(AssetPath, input.generated)
            && SourceBound(input, hash) && PolicyBound(input)
    ensures !DistinctKeys(ReferenceKey, input.assets.references) ==>
              PostRevision(input, hash).Refused? && PostRevision(input, hash).error.DuplicateReference?
    ensures DistinctKeys(ReferenceKey, input.assets.references) && !DistinctKeys(AssetPath, input.generated) ==>
              && PostRevision(input, hash).Refused? && PostRevision(input, hash).error.DuplicateGenerated?
              && Repeats(AssetPath, input.generated, PostRevision(input, hash).error.path)
  {
    SortUniqueMeaning(ReferenceKey, input.assets.references);
    SortUniqueMeaning(AssetPath, input.generated);
  }

  /** The order of references and generated assets decides nothing, not even the reported error. */
  lemma PostRevisionForgetsOrder(left: RevisionInput, right: RevisionInput, hash: Hash)
    requires right == left.(assets := left.assets.(references := right.assets.references), generated := right.generated)
    requires multiset(left.assets.references) == multiset(right.assets.references)
    requires multiset(left.generated) == multiset(right.generated)
    ensures PostRevision(left, hash) == PostRevision(right, hash)
  {
    SortUniqueForgetsOrder(ReferenceKey, left.assets.references, right.assets.references);
    SortUniqueForgetsOrder(AssetPath, left.generated, right.generated);
  }

  lemma SortedInputIsSized(input: RevisionInput, hash: Hash)
    requires SizedInput(input) && PostRevision(input, hash).Identity?
    ensures SizedRevision(PartsOf(input, SortUnique(ReferenceKey, input.assets.references).items,
                                  SortUnique(AssetPath, input.generated).items, hash))
  {
    SortUniqueMeaning(ReferenceKey, input.assets.references);
    SortUniqueMeaning(AssetPath, input.generated);
    SameMembers(SortUnique(ReferenceKey, input.assets.references).items, input.assets.references);
    SameMembers(SortUnique(AssetPath, input.generated).items, input.generated);
  }

  /** Accepted inputs have one transcript exactly when their scalar parts are equal and their
      collections hold the same members. */
  lemma PostRevisionIsUnordered(left: RevisionInput, right: RevisionInput, hash: Hash)
    requires SizedInput(left) && SizedInput(right)
    requires PostRevision(left, hash).Identity? && PostRevision(right, hash).Identity?
    ensures RevisionTranscriptOf(left, hash) == RevisionTranscriptOf(right, hash) <==>
            && PostContentDigest(left.document, hash) == PostContentDigest(right.document, hash)
            && left.assets.image == right.assets.image
            && multiset(left.assets.references) == multiset(right.assets.references)
            && left.renderer == right.renderer && left.article == right.article
            && multiset(left.generated) == multiset(right.generated)
  {
    var lr, lg := SortUnique(ReferenceKey, left.assets.references).items, SortUnique(AssetPath, left.generated).items;
    var rr, rg := SortUnique(ReferenceKey, right.assets.references).items, SortUnique(AssetPath, right.generated).items;
    SortedInputIsSized(left, hash);
    SortedInputIsSized(right, hash);
    RevisionTranscriptIsInjective(PartsOf(left, lr, lg, hash), PartsOf(right, rr, rg, hash));
    SortUniqueKeepsMembers(ReferenceKey, left.assets.references, right.assets.references);
    SortUniqueKeepsMembers(AssetPath, left.generated, right.generated);
  }

  // Prepared posts.

  /** The fast path: nothing is sorted and no binding is checked. */
  method DigestPrepared(content: Digest, assets: ResolvedPostAssets, renderer: PostRenderer, article: Bytes, hash: Hash)
    returns (digest: Digest)
    ensures digest == PreparedRevision(content, assets, renderer, article, hash)
  {
    digest := DigestRevisionParts(RevisionParts(content, assets.image, assets.references, renderer, article, []), hash);
  }

  function PreparedRevision(content: Digest, assets: ResolvedPostAssets, renderer: PostRenderer, article: Bytes,
                            hash: Hash): Digest {
    hash(POST_REVISION_CONTEXT,
         RevisionTranscript(RevisionParts(content, assets.image, assets.references, renderer, article, [])))
  }

  ghost predicate Increasing(references: seq<Reference>) {
    forall i, j | 0 <= i < j < |references| :: LexLess(ReferenceKey(references[i]), ReferenceKey(references[j]))
  }

  /** On assets resolved from this document under the site's allowlist, with references in
      strictly increasing key order, the fast path gives what the checked path gives. */
  lemma PreparedIsChecked(input: RevisionInput, hash: Hash)
    requires Increasing(input.assets.references) && input.generated == []
    requires SourceBound(input, hash) && PolicyBound(input)
    ensures PostRevision(input, hash)
         == Identity(PreparedRevision(PostContentDigest(input.document, hash), input.assets, input.renderer,
                                      input.article, hash))
  {
    IncreasingIsUnique(ReferenceKey, input.assets.references);
    IncreasingIsUnique(AssetPath, input.generated);
  }
}
