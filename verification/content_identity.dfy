/** Content digests of documents, and the bindings that tie resolved assets to their source. */
module ContentIdentities {
  import opened Framing
  import opened Ordering
  import opened Content
  import opened Transcripts
  import opened Documents
  import opened IdentityFields

  const POST_CONTENT_CONTEXT := "maincopy post content digest v1"
  const PUBLICATION_CONTENT_CONTEXT := "maincopy publication content digest v1"
  const POST_BINDING_CONTEXT := "maincopy post asset source binding v1"
  const PUBLICATION_BINDING_CONTEXT := "maincopy publication asset source binding v1"
  const POLICY_BINDING_CONTEXT := "maincopy asset resolution policy binding v1"

  /** The four frozen renderer policy tags: dialect, raw HTML, code classes, sanitised diagrams. */
  function BaselinePolicy(): Bytes {
    [0, 0, 1, 1]
  }

  // Post content.

  function PostHeading(d: PostDocument): Bytes {
    d.id + Frame(d.title) + Frame(d.slug) + AuthoredTime(d.authoredAt)
  }

  function PostDetails(d: PostDocument): Bytes {
    Optional(AuthoredTime, d.updatedAt) + Frame(d.description) + Counted(Frame, d.tags) + Counted(Frame, d.aliases)
  }

  function DraftTag(draft: bool): u8 {
    if draft then 1 else 0
  }

  function PostBody(d: PostDocument): Bytes {
    [DraftTag(d.draft)] + [d.tips.Tag()] + Frame(d.markdown)
  }

  function PostContentTranscript(d: PostDocument): Bytes {
    Header(Ascii("maincopy-post-content"), 1) + PostHeading(d) + PostDetails(d) + PostBody(d)
  }

  function PostContentDigest(d: PostDocument, hash: Hash): Digest {
    hash(POST_CONTENT_CONTEXT, PostContentTranscript(d))
  }

  ghost predicate SizedDocument(d: PostDocument) {
    && Sized(d.title) && Sized(d.slug) && Sized(d.description) && Sized(d.markdown)
    && SizedAll(d.tags) && SizedAll(d.aliases)
    && (d.image.Some? ==> Sized(d.image.value))
  }

  /** The document without the two fields its content digest leaves out. */
  function Digested(d: PostDocument): PostDocument {
    d.(path := [], image := None)
  }

  lemma PostHeadingSplit(x: PostDocument, y: PostDocument, s: Bytes, t: Bytes)
    requires SizedDocument(x) && SizedDocument(y) && PostHeading(x) + s == PostHeading(y) + t
    ensures x.id == y.id && x.title == y.title && x.slug == y.slug && x.authoredAt == y.authoredAt && s == t
  {
    var tx, ty := AuthoredTime(x.authoredAt) + s, AuthoredTime(y.authoredAt) + t;
    Associate(x.id + Frame(x.title) + Frame(x.slug), AuthoredTime(x.authoredAt), s);
    Associate(y.id + Frame(y.title) + Frame(y.slug), AuthoredTime(y.authoredAt), t);
    Associate4(x.id, Frame(x.title), Frame(x.slug), tx);
    Associate4(y.id, Frame(y.title), Frame(y.slug), ty);
    SplitFixed(x.id, y.id, Frame(x.title) + (Frame(x.slug) + tx), Frame(y.title) + (Frame(y.slug) + ty));
    FrameSplit(x.title, y.title, Frame(x.slug) + tx, Frame(y.slug) + ty);
    FrameSplit(x.slug, y.slug, tx, ty);
    AuthoredTimeSplit(x.authoredAt, y.authoredAt, s, t);
  }

  lemma UpdatedSplit(x: Option<OffsetDateTime>, y: Option<OffsetDateTime>, s: Bytes, t: Bytes)
    requires Optional(AuthoredTime, x) + s == Optional(AuthoredTime, y) + t
    ensures x == y && s == t
  {
    AuthoredTimePrefixFree();
    OptionalSplit(AuthoredTime, Any, x, y, s, t);
  }

  lemma PostDetailsSplit(x: PostDocument, y: PostDocument, s: Bytes, t: Bytes)
    requires SizedDocument(x) && SizedDocument(y) && PostDetails(x) + s == PostDetails(y) + t
    ensures x.updatedAt == y.updatedAt && x.description == y.description
    ensures x.tags == y.tags && x.aliases == y.aliases && s == t
  {
    var ux, uy := Optional(AuthoredTime, x.updatedAt), Optional(AuthoredTime, y.updatedAt);
    var dx, dy := Frame(x.description), Frame(y.description);
    var gx, gy := Counted(Frame, x.tags), Counted(Frame, y.tags);
    var ax, ay := Counted(Frame, x.aliases) + s, Counted(Frame, y.aliases) + t;
    Associate(ux + dx + gx, Counted(Frame, x.aliases), s);
    Associate(uy + dy + gy, Counted(Frame, y.aliases), t);
    Associate4(ux, dx, gx, ax);
    Associate4(uy, dy, gy, ay);
    UpdatedSplit(x.updatedAt, y.updatedAt, dx + (gx + ax), dy + (gy + ay));
    FrameSplit(x.description, y.description, gx + ax, gy + ay);
    TextsSplit(x.tags, y.tags, ax, ay);
    TextsSplit(x.aliases, y.aliases, s, t);
  }

  lemma PostBodySplit(x: PostDocument, y: PostDocument)
    requires SizedDocument(x) && SizedDocument(y) && PostBody(x) == PostBody(y)
    ensures x.draft == y.draft && x.tips == y.tips && x.markdown == y.markdown
  {
    var mx, my := Frame(x.markdown), Frame(y.markdown);
    var tx, ty := [DraftTag(x.draft)] + [x.tips.Tag()], [DraftTag(y.draft)] + [y.tips.Tag()];
    SplitFixed(tx, ty, mx, my);
    assert tx[0] == ty[0] && tx[1] == ty[1];
    assert mx + [] == my + [];
    FrameSplit(x.markdown, y.markdown, [], []);
  }

  /** The content transcript covers every field of a post but its path and its image. */
  lemma PostContentIsTheDocument(x: PostDocument, y: PostDocument)
    requires SizedDocument(x) && SizedDocument(y)
    ensures PostContentTranscript(x) == PostContentTranscript(y) <==> Digested(x) == Digested(y)
  {
    var header := Header(Ascii("maincopy-post-content"), 1);
    if PostContentTranscript(x) == PostContentTranscript(y) {
      Associate4(header, PostHeading(x), PostDetails(x), PostBody(x));
      Associate4(header, PostHeading(y), PostDetails(y), PostBody(y));
      var sx, sy := PostDetails(x) + PostBody(x), PostDetails(y) + PostBody(y);
      SplitFixed(header, header, PostHeading(x) + sx, PostHeading(y) + sy);
      PostHeadingSplit(x, y, sx, sy);
      PostDetailsSplit(x, y, PostBody(x), PostBody(y));
      PostBodySplit(x, y);
    }
    if Digested(x) == Digested(y) {
      SameContent(x, y);
    }
  }

  lemma SameContent(x: PostDocument, y: PostDocument)
    requires Digested(x) == Digested(y)
    ensures PostContentTranscript(x) == PostContentTranscript(y)
  {
    var d := Digested(x);
    assert PostHeading(x) == PostHeading(d) && PostDetails(x) == PostDetails(d) && PostBody(x) == PostBody(d);
    assert PostHeading(y) == PostHeading(d) && PostDetails(y) == PostDetails(d) && PostBody(y) == PostBody(d);
  }

  method FeedHeading(transcript: Transcript, d: PostDocument)
    modifies transcript
    ensures transcript.fed == old(transcript.fed) + PostHeading(d)
  {
    ghost var start := transcript.fed;
    transcript.FixedBytes(d.id);
    transcript.FramedBytes(d.title);
    transcript.FramedBytes(d.slug);
    Associate4(start, d.id, Frame(d.title), Frame(d.slug));
    Associate(d.id, Frame(d.title), Frame(d.slug));
    FeedAuthoredTime(transcript, d.authoredAt);
    Associate(start, d.id + Frame(d.title) + Frame(d.slug), AuthoredTime(d.authoredAt));
  }

  method FeedDetails(transcript: Transcript, d: PostDocument)
    modifies transcript
    ensures transcript.fed == old(transcript.fed) + PostDetails(d)
  {
    ghost var start := transcript.fed;
    match d.updatedAt {
      case Some(time) =>
        transcript.PutTag(1);
        FeedAuthoredTime(transcript, time);
        Associate(start, [1], AuthoredTime(time));
      case None =>
        transcript.PutTag(0);
    }
    ghost var updated, text := Optional(AuthoredTime, d.updatedAt), Frame(d.description);
    transcript.FramedBytes(d.description);
    FeedTexts(transcript, d.tags);
    Associate4(start, updated, text, Counted(Frame, d.tags));
    Associate(updated, text, Counted(Frame, d.tags));
    FeedTexts(transcript, d.aliases);
    Associate(start, updated + text + Counted(Frame, d.tags), Counted(Frame, d.aliases));
  }

  method DigestPostContent(d: PostDocument, hash: Hash) returns (digest: Digest)
    ensures digest == PostContentDigest(d, hash)
  {
    var transcript := new Transcript(POST_CONTENT_CONTEXT, Ascii("maincopy-post-content"), 1);
    FeedHeading(transcript, d);
    FeedDetails(transcript, d);
    ghost var start := transcript.fed;
    transcript.PutTag(if d.draft then 1 else 0);
    transcript.PutTag(d.tips.Tag());
    transcript.FramedBytes(d.markdown);
    Associate4(start, [DraftTag(d.draft)], [d.tips.Tag()], Frame(d.markdown));
    Associate([DraftTag(d.draft)], [d.tips.Tag()], Frame(d.markdown));
    digest := transcript.Finish(hash);
  }

  // Publication content.

  function PublicationTexts(p: PublicationSettings): Bytes {
    Frame(p.title) + Frame(p.baseUrl) + Frame(p.description) + Frame(p.author)
  }

  function PublicationContentTranscript(p: PublicationSettings): Bytes {
    Header(Ascii("maincopy-publication-content"), 1) + PublicationTexts(p)
    + [TipsTag(p)] + BaselinePolicy()
  }

  function TipsTag(p: PublicationSettings): u8 {
    if p.tipsEnabled then 1 else 0
  }

  function PublicationContentDigest(p: PublicationSettings, hash: Hash): Digest {
    hash(PUBLICATION_CONTENT_CONTEXT, PublicationContentTranscript(p))
  }

  ghost predicate SizedSettings(p: PublicationSettings) {
    && Sized(p.title) && Sized(p.baseUrl) && Sized(p.description) && Sized(p.author)
    && (p.favicon.Some? ==> Sized(p.favicon.value)) && (p.image.Some? ==> Sized(p.image.value))
    && SizedAll(p.allowedOrigins)
  }

  /** The part of the settings that the content digest covers; the binding covers the rest. */
  function DigestedSettings(p: PublicationSettings): PublicationSettings {
    p.(favicon := None, image := None, allowedOrigins := [])
  }

  lemma PublicationTextsSplit(x: PublicationSettings, y: PublicationSettings, s: Bytes, t: Bytes)
    requires SizedSettings(x) && SizedSettings(y) && PublicationTexts(x) + s == PublicationTexts(y) + t
    ensures x.title == y.title && x.baseUrl == y.baseUrl && x.description == y.description && x.author == y.author
            && s == t
  {
    var ax, ay := Frame(x.author) + s, Frame(y.author) + t;
    Associate(Frame(x.title) + Frame(x.baseUrl) + Frame(x.description), Frame(x.author), s);
    Associate(Frame(y.title) + Frame(y.baseUrl) + Frame(y.description), Frame(y.author), t);
    Associate4(Frame(x.title), Frame(x.baseUrl), Frame(x.description), ax);
    Associate4(Frame(y.title), Frame(y.baseUrl), Frame(y.description), ay);
    FrameSplit(x.title, y.title,
               Frame(x.baseUrl) + (Frame(x.description) + ax), Frame(y.baseUrl) + (Frame(y.description) + ay));
    FrameSplit(x.baseUrl, y.baseUrl, Frame(x.description) + ax, Frame(y.description) + ay);
    FrameSplit(x.description, y.description, ax, ay);
    FrameSplit(x.author, y.author, s, t);
  }

  /** The content transcript covers every setting of a publication but favicon, image and origins. */
  lemma PublicationContentIsTheSettings(x: PublicationSettings, y: PublicationSettings)
    requires SizedSettings(x) && SizedSettings(y)
    ensures PublicationContentTranscript(x) == PublicationContentTranscript(y) <==>
            DigestedSettings(x) == DigestedSettings(y)
  {
    var header := Header(Ascii("maincopy-publication-content"), 1);
    var tx, ty := [TipsTag(x)], [TipsTag(y)];
    if PublicationContentTranscript(x) == PublicationContentTranscript(y) {
      Associate4(header, PublicationTexts(x), tx, BaselinePolicy());
      Associate4(header, PublicationTexts(y), ty, BaselinePolicy());
      SplitFixed(header, header,
                 PublicationTexts(x) + (tx + BaselinePolicy()), PublicationTexts(y) + (ty + BaselinePolicy()));
      PublicationTextsSplit(x, y, tx + BaselinePolicy(), ty + BaselinePolicy());
      SplitFixed(tx, ty, BaselinePolicy(), BaselinePolicy());
      assert TipsTag(x) == TipsTag(y);
    }
    if DigestedSettings(x) == DigestedSettings(y) {
      var d := DigestedSettings(x);
      assert PublicationTexts(x) == PublicationTexts(d) == PublicationTexts(y);
      assert TipsTag(x) == TipsTag(d) == TipsTag(y);
    }
  }

  method DigestPublicationContent(p: PublicationSettings, hash: Hash) returns (digest: Digest)
    ensures digest == PublicationContentDigest(p, hash)
  {
    var transcript := new Transcript(PUBLICATION_CONTENT_CONTEXT, Ascii("maincopy-publication-content"), 1);
    ghost var start := transcript.fed;
    transcript.FramedBytes(p.title);
    transcript.FramedBytes(p.baseUrl);
    transcript.FramedBytes(p.description);
    Associate4(start, Frame(p.title), Frame(p.baseUrl), Frame(p.description));
    Associate(Frame(p.title), Frame(p.baseUrl), Frame(p.description));
    transcript.FramedBytes(p.author);
    Associate(start, Frame(p.title) + Frame(p.baseUrl) + Frame(p.description), Frame(p.author));
    transcript.PutTag(TipsTag(p));
    transcript.FixedBytes(BaselinePolicy());
    digest := transcript.Finish(hash);
  }

  // Bindings.

  function PostBindingTranscript(content: Digest, image: Option<Bytes>): Bytes {
    Header(Ascii("maincopy-post-asset-source-binding"), 1) + content + Optional(Frame, image)
  }

  function PostBinding(d: PostDocument, content: Digest, hash: Hash): Digest {
    hash(POST_BINDING_CONTEXT, PostBindingTranscript(content, d.image))
  }

  method BindPostSource(d: PostDocument, content: Digest, hash: Hash) returns (binding: Digest)
    ensures binding == PostBinding(d, content, hash)
  {
    var transcript := new Transcript(POST_BINDING_CONTEXT, Ascii("maincopy-post-asset-source-binding"), 1);
    transcript.FixedBytes(content);
    FeedOptionalText(transcript, d.image);
    binding := transcript.Finish(hash);
  }

  function PublicationBindingTranscript(p: PublicationSettings, content: Digest): Bytes {
    Header(Ascii("maincopy-publication-asset-source-binding"), 1) + content
    + Optional(Frame, p.favicon) + Optional(Frame, p.image) + Counted(Frame, p.allowedOrigins)
  }

  function PublicationBinding(p: PublicationSettings, hash: Hash): Digest {
    hash(PUBLICATION_BINDING_CONTEXT, PublicationBindingTranscript(p, PublicationContentDigest(p, hash)))
  }

  method BindPublicationSource(p: PublicationSettings, hash: Hash) returns (binding: Digest)
    ensures binding == PublicationBinding(p, hash)
  {
    var content := DigestPublicationContent(p, hash);
    var kind := Ascii("maincopy-publication-asset-source-binding");
    var transcript := new Transcript(PUBLICATION_BINDING_CONTEXT, kind, 1);
    transcript.FixedBytes(content);
    FeedOptionalText(transcript, p.favicon);
    FeedOptionalText(transcript, p.image);
    FeedTexts(transcript, p.allowedOrigins);
    binding := transcript.Finish(hash);
  }

  /** The effective allowlist, sorted but not checked for repeats. */
  function PolicyTranscript(origins: seq<Bytes>): Bytes {
    Header(Ascii("maincopy-asset-resolution-policy-binding"), 1) + Counted(Frame, Sort(LexLeq, origins))
  }

  function PolicyBinding(origins: seq<Bytes>, hash: Hash): Digest {
    hash(POLICY_BINDING_CONTEXT, PolicyTranscript(origins))
  }

  method BindPolicy(origins: seq<Bytes>, hash: Hash) returns (binding: Digest)
    ensures binding == PolicyBinding(origins, hash)
  {
    var sorted := Sort(LexLeq, origins);
    var transcript := new Transcript(POLICY_BINDING_CONTEXT, Ascii("maincopy-asset-resolution-policy-binding"), 1);
    FeedTexts(transcript, sorted);
    binding := transcript.Finish(hash);
  }

  /** The policy transcript is the allowlist as a multiset. */
  lemma PolicyIsTheAllowlist(left: seq<Bytes>, right: seq<Bytes>)
    requires SizedAll(left) && SizedAll(right)
    ensures PolicyTranscript(left) == PolicyTranscript(right) <==> multiset(left) == multiset(right)
  {
    LexIsTotalOrder();
    SortPermutes(LexLeq, left);
    SortPermutes(LexLeq, right);
    if multiset(left) == multiset(right) {
      SortIsCanonical(LexLeq, left, right);
    }
    var header := Header(Ascii("maincopy-asset-resolution-policy-binding"), 1);
    var l, r := Counted(Frame, Sort(LexLeq, left)), Counted(Frame, Sort(LexLeq, right));
    if PolicyTranscript(left) == PolicyTranscript(right) {
      SplitFixed(header, header, l, r);
      assert l + [] == r + [];
      TextsSplit(Sort(LexLeq, left), Sort(LexLeq, right), [], []);
    }
  }

  /** Two inputs of one context that hash alike: what equal digests of unequal inputs exhibit. */
  ghost predicate Collision(hash: Hash, context: string, a: Bytes, b: Bytes) {
    a != b && hash(context, a) == hash(context, b)
  }

  /** A binding made for another post is accepted only if these very transcripts collide. */
  lemma BindingIdentifiesThePost(x: PostDocument, y: PostDocument, hash: Hash)
    requires SizedDocument(x) && SizedDocument(y)
    requires PostBinding(x, PostContentDigest(x, hash), hash) == PostBinding(y, PostContentDigest(y, hash), hash)
    ensures || x.(path := []) == y.(path := [])
            || Collision(hash, POST_CONTENT_CONTEXT, PostContentTranscript(x), PostContentTranscript(y))
            || Collision(hash, POST_BINDING_CONTEXT, PostBindingTranscript(PostContentDigest(x, hash), x.image),
                         PostBindingTranscript(PostContentDigest(y, hash), y.image))
  {
    var cx, cy := PostContentDigest(x, hash), PostContentDigest(y, hash);
    if PostBindingTranscript(cx, x.image) == PostBindingTranscript(cy, y.image) {
      PostBindingSplit(cx, cy, x.image, y.image);
      PostContentIsTheDocument(x, y);
      assert Digested(x).(image := x.image) == x.(path := []) && Digested(y).(image := y.image) == y.(path := []);
    }
  }

  lemma PostBindingSplit(cx: Digest, cy: Digest, ix: Option<Bytes>, iy: Option<Bytes>)
    requires (ix.Some? ==> Sized(ix.value)) && (iy.Some? ==> Sized(iy.value))
    requires PostBindingTranscript(cx, ix) == PostBindingTranscript(cy, iy)
    ensures cx == cy && ix == iy
  {
    var header := Header(Ascii("maincopy-post-asset-source-binding"), 1);
    Associate(header, cx, Optional(Frame, ix));
    Associate(header, cy, Optional(Frame, iy));
    SplitFixed(header, header, cx + Optional(Frame, ix), cy + Optional(Frame, iy));
    SplitFixed(cx, cy, Optional(Frame, ix), Optional(Frame, iy));
    FramePrefixFree();
    assert Optional(Frame, ix) + [] == Optional(Frame, iy) + [];
    OptionalSplit(Frame, Sized, ix, iy, [], []);
  }

  /** A binding made for other settings is accepted only if these very transcripts collide. */
  lemma BindingIdentifiesThePublication(x: PublicationSettings, y: PublicationSettings, hash: Hash)
    requires SizedSettings(x) && SizedSettings(y) && PublicationBinding(x, hash) == PublicationBinding(y, hash)
    ensures || x == y
            || Collision(hash, PUBLICATION_CONTENT_CONTEXT, PublicationContentTranscript(x),
                         PublicationContentTranscript(y))
            || Collision(hash, PUBLICATION_BINDING_CONTEXT,
                         PublicationBindingTranscript(x, PublicationContentDigest(x, hash)),
                         PublicationBindingTranscript(y, PublicationContentDigest(y, hash)))
  {
    var cx, cy := PublicationContentDigest(x, hash), PublicationContentDigest(y, hash);
    if PublicationBindingTranscript(x, cx) == PublicationBindingTranscript(y, cy) {
      PublicationBindingSplit(x, y, cx, cy);
      PublicationContentIsTheSettings(x, y);
      if DigestedSettings(x) == DigestedSettings(y) {
        assert x == DigestedSettings(x).(favicon := y.favicon, image := y.image, allowedOrigins := y.allowedOrigins);
      }
    }
  }

  lemma PublicationBindingSplit(x: PublicationSettings, y: PublicationSettings, cx: Digest, cy: Digest)
    requires SizedSettings(x) && SizedSettings(y)
             && PublicationBindingTranscript(x, cx) == PublicationBindingTranscript(y, cy)
    ensures cx == cy && x.favicon == y.favicon && x.image == y.image && x.allowedOrigins == y.allowedOrigins
  {
    var header := Header(Ascii("maincopy-publication-asset-source-binding"), 1);
    var fx, fy := Optional(Frame, x.favicon), Optional(Frame, y.favicon);
    var ix, iy := Optional(Frame, x.image), Optional(Frame, y.image);
    var ox, oy := Counted(Frame, x.allowedOrigins), Counted(Frame, y.allowedOrigins);
    Associate4(header + cx, fx, ix, ox);
    Associate4(header + cy, fy, iy, oy);
    SplitFixed(header + cx, header + cy, fx + (ix + ox), fy + (iy + oy));
    SplitFixed(header, header, cx, cy);
    FramePrefixFree();
    OptionalSplit(Frame, Sized, x.favicon, y.favicon, ix + ox, iy + oy);
    OptionalSplit(Frame, Sized, x.image, y.image, ox, oy);
    assert ox + [] == oy + [];
    TextsSplit(x.allowedOrigins, y.allowedOrigins, [], []);
  }
}
