/** Validated documents, asset references, and the resolved assets an identity is closed over. */
module Documents {
  import opened Framing
  import opened Content
  import opened Transcripts

  type Uuid = b: Bytes | |b| == 16 witness seq(16, i => 0)
  type i64 = v: int | -0x8000_0000_0000_0000 <= v < 0x8000_0000_0000_0000
  type i32 = v: int | -0x8000_0000 <= v < 0x8000_0000
  type Nanosecond = v: int | 0 <= v < 1_000_000_000

  /** An instant together with the UTC offset it was written with. */
  datatype OffsetDateTime = OffsetDateTime(unix: i64, nanosecond: Nanosecond, offset: i32) {
    function ToUtc(): OffsetDateTime {
      this.(offset := 0)
    }
  }

  datatype TipPolicy = InheritPublication | Enabled | Disabled {
    function Tag(): u8 {
      match this
      case InheritPublication => 0
      case Enabled => 1
      case Disabled => 2
    }
  }

  datatype PostDocument = PostDocument(
    path: Bytes,
    id: Uuid,
    title: Bytes,
    slug: Bytes,
    authoredAt: OffsetDateTime,
    updatedAt: Option<OffsetDateTime>,
    description: Bytes,
    image: Option<Bytes>,
    tags: seq<Bytes>,
    aliases: seq<Bytes>,
    draft: bool,
    tips: TipPolicy,
    markdown: Bytes)

  datatype PublicationSettings = PublicationSettings(
    title: Bytes,
    baseUrl: Bytes,
    description: Bytes,
    author: Bytes,
    tipsEnabled: bool,
    favicon: Option<Bytes>,
    image: Option<Bytes>,
    allowedOrigins: seq<Bytes>)

  datatype DigestedAsset = DigestedAsset(path: Bytes, digest: Digest)

  datatype Reference = Local(asset: DigestedAsset) | External(url: Bytes)

  /** The sort key of a reference: local ones by path first, then external ones by URL. */
  function ReferenceKey(reference: Reference): Bytes {
    match reference
    case Local(asset) => [0] + asset.path
    case External(url) => [1] + url
  }

  function AssetPath(asset: DigestedAsset): Bytes {
    asset.path
  }

  function Itself(text: Bytes): Bytes {
    text
  }

  datatype DestinationKind = Image | Download

  datatype Destination = Destination(ordinal: nat, range: (nat, nat), kind: DestinationKind, authored: Bytes,
                                     target: Reference)

  datatype ResolvedPostAssets = ResolvedPostAssets(
    sourceBinding: Digest,
    policyBinding: Digest,
    image: Option<Reference>,
    references: seq<Reference>,
    destinations: seq<Destination>)

  datatype ResolvedSiteAssets = ResolvedSiteAssets(
    sourceBinding: Digest,
    policyBinding: Digest,
    favicon: Option<Reference>,
    image: Option<Reference>,
    allowedOrigins: seq<Bytes>,
    references: seq<Reference>)

  datatype PublicPost = PublicPost(id: Uuid, revision: Digest, publishedAt: OffsetDateTime)

  function PublicPostKey(post: PublicPost): Bytes {
    post.id
  }

  datatype PostRenderer = PostRenderer(
    commonmarkDialect: u8,
    rawHtmlDisabled: u8,
    codeLanguageClasses: u8,
    mermaidSanitizedSvg: u8,
    rendererVersion: u8,
    sanitizerVersion: u8)
}
