/** The resolver: indexes the discovered assets and the allowlist, resolves every asset
    destination, and collects errors and warnings on the way. */
module Resolvers {
  import opened Framing
  import opened Ordering
  import opened Content
  import opened Transcripts
  import opened Diagnostics
  import opened Documents
  import opened ContentIdentities
  import opened AssetTargets

  datatype Location =
    | AllowedOrigin(ordinal: nat)
    | PublicationFavicon
    | PublicationImage
    | PostPreviewImage
    | MarkdownLocation(ordinal: nat, kind: DestinationKind)
    | LocalAsset

  datatype ResolutionError = ResolutionError(path: Bytes, location: Location, code: Code, detail: Bytes)

  datatype Warning = Warning(path: Bytes, location: Location, url: Bytes)

  datatype StoredAsset = StoredAsset(asset: DigestedAsset, bytes: Bytes)

  type Store = map<Bytes, StoredAsset>

  datatype Lookup = Stored(asset: StoredAsset) | MissingAsset | LookupMismatch

  /** Reference-checked access to the bytes of a resolved local asset. */
  function ResolveStored(store: Store, reference: DigestedAsset): Lookup {
    if reference.path !in store then MissingAsset
    else if store[reference.path].asset != reference then LookupMismatch
    else Stored(store[reference.path])
  }

  // Diagnostics in canonical order.

  function LocationKey(location: Location): (key: Key)
    ensures |key| == 3
  {
    match location
    case AllowedOrigin(ordinal) => [Num(1), Num(ordinal), Num(0)]
    case PublicationFavicon => [Num(2), Num(0), Num(0)]
    case PublicationImage => [Num(3), Num(0), Num(0)]
    case PostPreviewImage => [Num(4), Num(0), Num(0)]
    case MarkdownLocation(ordinal, kind) => [Num(5), Num(ordinal), Num(if kind.Image? then 0 else 1)]
    case LocalAsset => [Num(6), Num(0), Num(0)]
  }

  function CodeRank(code: Code): nat {
    match code
    case AllowedOriginInvalid => 0
    case AllowedOriginDuplicated => 1
    case LocalAssetDuplicated => 3
    case LocalAssetPathInvalid => 4
    case LocalAssetMissing => 5
    case ExternalAssetUrlInvalid => 6
    case ExternalAssetOriginNotAllowed => 7
  }

  function ErrorKey(error: ResolutionError): Key {
    [Text(error.path)] + LocationKey(error.location) + [Num(CodeRank(error.code)), Text(error.detail)]
  }

  function WarningKey(warning: Warning): Key {
    [Text(warning.path)] + LocationKey(warning.location) + [Text(warning.url)]
  }

  lemma LocationKeyIdentifies(x: Location, y: Location)
    requires LocationKey(x) == LocationKey(y)
    ensures x == y
  {
    assert LocationKey(x)[0] == LocationKey(y)[0] && LocationKey(x)[1] == LocationKey(y)[1];
    assert LocationKey(x)[2] == LocationKey(y)[2];
  }

  lemma ResolverKeysIdentify()
    ensures KeyIdentifies(ErrorKey) && KeyIdentifies(WarningKey)
  {
    forall x, y | ErrorKey(x) == ErrorKey(y) ensures x == y {
      assert ErrorKey(x)[0] == ErrorKey(y)[0] && ErrorKey(x)[4] == ErrorKey(y)[4] && ErrorKey(x)[5] == ErrorKey(y)[5];
      assert ErrorKey(x)[1..4] == LocationKey(x.location) && ErrorKey(y)[1..4] == LocationKey(y.location);
      LocationKeyIdentifies(x.location, y.location);
    }
    forall x, y | WarningKey(x) == WarningKey(y) ensures x == y {
      assert WarningKey(x)[0] == WarningKey(y)[0] && WarningKey(x)[4] == WarningKey(y)[4];
      assert WarningKey(x)[1..4] == LocationKey(x.location) && WarningKey(y)[1..4] == LocationKey(y.location);
      LocationKeyIdentifies(x.location, y.location);
    }
  }

  // What resolving adds to the resolver's state.

  datatype Effects = Effects(errors: seq<ResolutionError>, warnings: seq<Warning>, locals: set<Bytes>)

  function Nothing(): Effects {
    Effects([], [], {})
  }

  function Both(first: Effects, second: Effects): Effects {
    Effects(first.errors + second.errors, first.warnings + second.warnings, first.locals + second.locals)
  }

  function EffectsOf(r: Resolution, path: Bytes, location: Location): Effects {
    match r
    case Missed(code, detail) => Effects([ResolutionError(path, location, code, detail)], [], {})
    case Found(Local(asset), _) => Effects([], [], {asset.path})
    case Found(External(url), mutable) => Effects([], if mutable then [Warning(path, location, url)] else [], {})
  }

  function TargetOf(r: Resolution): Option<Reference> {
    if r.Found? then Some(r.target) else None
  }

  function OptionalEffects(env: Env, path: Bytes, location: Location, authored: Option<Bytes>): Effects {
    if authored.Some? then EffectsOf(ResolveTarget(env, authored.value), path, location) else Nothing()
  }

  function OptionalTarget(env: Env, authored: Option<Bytes>): Option<Reference> {
    if authored.Some? then TargetOf(ResolveTarget(env, authored.value)) else None
  }

  // The destinations of one post.

  /** `entry(key).or_insert(x)` of a map that is kept in key order. */
  function Enter(x: Reference, xs: seq<Reference>): seq<Reference> {
    if xs == [] || LexLess(ReferenceKey(x), ReferenceKey(xs[0])) then [x] + xs
    else if ReferenceKey(x) == ReferenceKey(xs[0]) then xs
    else [xs[0]] + Enter(x, xs[1..])
  }

  datatype Scan = Scan(count: nat, destinations: seq<Destination>, references: seq<Reference>, effects: Effects)

  function KindOf(event: Event): DestinationKind
    requires !event.OtherEvent?
  {
    if event.ImageStart? then Image else Download
  }

  predicate IsAssetEvent(env: Env, event: Event) {
    event.ImageStart? || (event.LinkStart? && IsFileReference(env, event.destination))
  }

  function ScanStep(env: Env, path: Bytes, scan: Scan, event: Event): Scan {
    if event.OtherEvent? then scan
    else
      var counted := scan.(count := scan.count + 1);
      if !IsAssetEvent(env, event) then counted
      else
        var r := ResolveTarget(env, event.destination);
        var effects := Both(scan.effects, EffectsOf(r, path, MarkdownLocation(counted.count, KindOf(event))));
        if r.Missed? then counted.(effects := effects)
        else
          Scan(counted.count,
               scan.destinations
               + [Destination(counted.count, event.range, KindOf(event), event.destination, r.target)],
               Enter(r.target, scan.references),
               effects)
  }

  function ScanEvents(env: Env, path: Bytes, events: seq<Event>): Scan {
    if events == [] then Scan(0, [], [], Nothing())
    else ScanStep(env, path, ScanEvents(env, path, events[..|events| - 1]), events[|events| - 1])
  }

  datatype PreparedPost = PreparedPost(document: PostDocument, assets: ResolvedPostAssets, content: Digest)

  function PostScan(env: Env, document: PostDocument): Scan {
    ScanEvents(env, document.path, env.lib.events(document.markdown))
  }

  function PreparePost(env: Env, document: PostDocument): PreparedPost {
    var scan := PostScan(env, document);
    var content := PostContentDigest(document, env.hash);
    PreparedPost(document,
                 ResolvedPostAssets(PostBinding(document, content, env.hash), PolicyBinding(env.origins, env.hash),
                                    OptionalTarget(env, document.image), scan.references, scan.destinations),
                 content)
  }

  function PostEffects(env: Env, document: PostDocument): Effects {
    Both(OptionalEffects(env, document.path, PostPreviewImage, document.image), PostScan(env, document).effects)
  }

  function PostsEffects(env: Env, documents: seq<PostDocument>): Effects {
    if documents == [] then Nothing()
    else Both(PostsEffects(env, documents[..|documents| - 1]), PostEffects(env, documents[|documents| - 1]))
  }

  function PreparePosts(env: Env, documents: seq<PostDocument>): (posts: seq<PreparedPost>)
    ensures |posts| == |documents|
  {
    if documents == [] then []
    else PreparePosts(env, documents[..|documents| - 1]) + [PreparePost(env, documents[|documents| - 1])]
  }

  // The index of discovered assets and the effective allowlist.

  function Index(assets: seq<Asset>): (map<Bytes, Bytes>, seq<ResolutionError>) {
    if assets == [] then (map[], [])
    else
      var before, last := Index(assets[..|assets| - 1]), assets[|assets| - 1];
      if last.path in before.0 then
        (before.0, before.1 + [ResolutionError(last.path, LocalAsset, LocalAssetDuplicated, last.path)])
      else
        (before.0[last.path := last.bytes], before.1)
  }

  function Allowlist(lib: Library, path: Bytes, authored: seq<Bytes>): (seq<Bytes>, seq<ResolutionError>) {
    if authored == [] then ([], [])
    else
      var before := Allowlist(lib, path, authored[..|authored| - 1]);
      var origin := lib.parseOrigin(authored[|authored| - 1]);
      if origin.None? then
        (before.0, before.1 + [ResolutionError(path, AllowedOrigin(|authored|), AllowedOriginInvalid, [])])
      else if origin.value in before.0 then
        (before.0, before.1 + [ResolutionError(path, AllowedOrigin(|authored|), AllowedOriginDuplicated, origin.value)])
      else
        (before.0 + [origin.value], before.1)
  }

  /** A content tree whose documents have been validated. */
  datatype Validated = Validated(publicationPath: Bytes, publication: PublicationSettings, posts: seq<PostDocument>,
                                 assets: seq<Asset>)

  function EnvOf(lib: Library, hash: Hash, input: Validated): Env {
    Env(lib, hash, Index(input.assets).0,
        Sort(LexLeq, Allowlist(lib, input.publicationPath, input.publication.allowedOrigins).0))
  }

  function SetupErrors(lib: Library, input: Validated): seq<ResolutionError> {
    Index(input.assets).1 + Allowlist(lib, input.publicationPath, input.publication.allowedOrigins).1
  }

  function SiteEffects(env: Env, input: Validated): Effects {
    Both(OptionalEffects(env, input.publicationPath, PublicationFavicon, input.publication.favicon),
         OptionalEffects(env, input.publicationPath, PublicationImage, input.publication.image))
  }

  function SiteAssets(env: Env, publication: PublicationSettings): ResolvedSiteAssets {
    ResolvedSiteAssets(PublicationBinding(publication, env.hash), PolicyBinding(env.origins, env.hash),
                       OptionalTarget(env, publication.favicon), OptionalTarget(env, publication.image),
                       env.origins, [])
  }

  datatype PreparedContent = PreparedContent(
    publication: PublicationSettings,
    site: ResolvedSiteAssets,
    posts: seq<PreparedPost>,
    store: Store,
    warnings: seq<Warning>)

  datatype Prepared = Ready(content: PreparedContent) | Rejected(errors: seq<ResolutionError>)

  function AllEffects(env: Env, input: Validated): Effects {
    Both(SiteEffects(env, input), PostsEffects(env, input.posts))
  }

  function StoredOf(env: Env, path: Bytes): StoredAsset
    requires path in env.discovered
  {
    StoredAsset(DigestedAsset(path, AssetDigest(env.discovered[path], env.hash)), env.discovered[path])
  }

  ghost predicate StoreOf(env: Env, store: Store, locals: set<Bytes>) {
    && store.Keys == locals
    && forall path | path in store :: path in env.discovered && store[path] == StoredOf(env, path)
  }

  class Resolver {
    const lib: Library
    const hash: Hash
    const input: Validated
    var allowedOrigins: seq<Bytes>
    var discovered: map<Bytes, Bytes>
    var resolved: Store
    var errors: seq<ResolutionError>
    var warnings: seq<Warning>

    constructor (lib: Library, hash: Hash, input: Validated)
      ensures this.lib == lib && this.hash == hash && this.input == input
      ensures allowedOrigins == [] && discovered == map[] && resolved == map[] && errors == [] && warnings == []
    {
      this.lib, this.hash, this.input := lib, hash, input;
      allowedOrigins, discovered, resolved, errors, warnings := [], map[], map[], [], [];
    }

    function TheEnv(): Env
      reads this`discovered, this`allowedOrigins
    {
      Env(lib, hash, discovered, allowedOrigins)
    }

    /** The effects recorded so far are `effects`, behind the errors of the set-up. */
    ghost predicate Recorded(setup: seq<ResolutionError>, effects: Effects)
      reads this
    {
      errors == setup + effects.errors && warnings == effects.warnings && StoreOf(TheEnv(), resolved, effects.locals)
    }

    method IndexLocalAssets()
      requires discovered == map[]
      modifies this`discovered, this`errors
      ensures discovered == Index(input.assets).0 && errors == old(errors) + Index(input.assets).1
    {
      assert input.assets[..0] == [];
      for i := 0 to |input.assets|
        invariant discovered == Index(input.assets[..i]).0 && errors == old(errors) + Index(input.assets[..i]).1
      {
        var asset := input.assets[i];
        assert input.assets[..i + 1][..i] == input.assets[..i];
        if asset.path in discovered {
          errors := errors + [ResolutionError(asset.path, LocalAsset, LocalAssetDuplicated, asset.path)];
          continue;
        }
        discovered := discovered[asset.path := asset.bytes];
      }
      assert input.assets[..|input.assets|] == input.assets;
    }

    method ResolveAllowedOrigins()
      requires allowedOrigins == []
      modifies this`allowedOrigins, this`errors
      ensures var list := Allowlist(lib, input.publicationPath, input.publication.allowedOrigins);
              allowedOrigins == Sort(LexLeq, list.0) && errors == old(errors) + list.1
    {
      var path, authored := input.publicationPath, input.publication.allowedOrigins;
      var canonical: set<Bytes> := {};
      assert authored[..0] == [];
      for i := 0 to |authored|
        invariant allowedOrigins == Allowlist(lib, path, authored[..i]).0
        invariant errors == old(errors) + Allowlist(lib, path, authored[..i]).1
        invariant forall origin :: origin in canonical <==> origin in allowedOrigins
      {
        assert authored[..i + 1][..i] == authored[..i];
        var origin := lib.parseOrigin(authored[i]);
        if origin.None? {
          errors := errors + [ResolutionError(path, AllowedOrigin(i + 1), AllowedOriginInvalid, [])];
          continue;
        }
        if origin.value in canonical {
          errors := errors + [ResolutionError(path, AllowedOrigin(i + 1), AllowedOriginDuplicated, origin.value)];
          continue;
        }
        canonical := canonical + {origin.value};
        allowedOrigins := allowedOrigins + [origin.value];
      }
      assert authored[..|authored|] == authored;
      allowedOrigins := Sort(LexLeq, allowedOrigins);
    }

    method ResolveReference(path: Bytes, location: Location, authored: Bytes, ghost setup: seq<ResolutionError>,
                            ghost before: Effects)
      returns (target: Option<Reference>)
      requires Recorded(setup, before)
      modifies this`resolved, this`errors, this`warnings
      ensures target == TargetOf(ResolveTarget(TheEnv(), authored))
      ensures Recorded(setup, Both(before, EffectsOf(ResolveTarget(TheEnv(), authored), path, location)))
    {
      if LooksExternal(authored) {
        target := ResolveExternalReference(path, location, authored, setup, before);
        return;
      }
      if !LogicalAssetPath(authored) {
        errors := errors + [ResolutionError(path, location, LocalAssetPathInvalid, authored)];
        return None;
      }
      if authored !in discovered {
        errors := errors + [ResolutionError(path, location, LocalAssetMissing, authored)];
        return None;
      }
      if authored !in resolved {
        var bytes := discovered[authored];
        resolved := resolved[authored := StoredAsset(DigestedAsset(authored, AssetDigest(bytes, hash)), bytes)];
      }
      return Some(Local(resolved[authored].asset));
    }

    method ResolveExternalReference(path: Bytes, location: Location, authored: Bytes, ghost setup: seq<ResolutionError>,
                                    ghost before: Effects)
      returns (target: Option<Reference>)
      requires Recorded(setup, before)
      modifies this`errors, this`warnings
      ensures target == TargetOf(ResolveExternal(TheEnv(), authored))
      ensures Recorded(setup, Both(before, EffectsOf(ResolveExternal(TheEnv(), authored), path, location)))
    {
      var url := lib.parseAssetUrl(authored);
      if url.None? {
        errors := errors + [ResolutionError(path, location, ExternalAssetUrlInvalid, [])];
        return None;
      }
      if !AllowsEndpoint(TheEnv(), lib.endpoint(url.value)) {
        errors := errors + [ResolutionError(path, location, ExternalAssetOriginNotAllowed, [])];
        return None;
      }
      if !lib.looksImmutable(url.value) {
        warnings := warnings + [Warning(path, location, url.value)];
      }
      return Some(External(url.value));
    }

    method ResolveOptional(path: Bytes, location: Location, authored: Option<Bytes>, ghost setup: seq<ResolutionError>,
                           ghost before: Effects)
      returns (target: Option<Reference>)
      requires Recorded(setup, before)
      modifies this`resolved, this`errors, this`warnings
      ensures target == OptionalTarget(TheEnv(), authored)
      ensures Recorded(setup, Both(before, OptionalEffects(TheEnv(), path, location, authored)))
    {
      if authored.None? {
        return None;
      }
      target := ResolveReference(path, location, authored.value, setup, before);
    }

    method ResolveDestinations(document: PostDocument, ghost setup: seq<ResolutionError>, ghost before: Effects)
      returns (references: seq<Reference>, destinations: seq<Destination>)
      requires Recorded(setup, before)
      modifies this`resolved, this`errors, this`warnings
      ensures var scan := PostScan(TheEnv(), document);
              references == scan.references && destinations == scan.destinations
              && Recorded(setup, Both(before, scan.effects))
    {
      var path, events := document.path, lib.events(document.markdown);
      var count := 0;
      references, destinations := [], [];
      assert events[..0] == [];
      for i := 0 to |events|
        invariant count == ScanEvents(TheEnv(), path, events[..i]).count
        invariant references == ScanEvents(TheEnv(), path, events[..i]).references
        invariant destinations == ScanEvents(TheEnv(), path, events[..i]).destinations
        invariant Recorded(setup, Both(before, ScanEvents(TheEnv(), path, events[..i]).effects))
      {
        var event := events[i];
        ghost var scan := ScanEvents(TheEnv(), path, events[..i]);
        assert events[..i + 1][..i] == events[..i];
        assert ScanEvents(TheEnv(), path, events[..i + 1]) == ScanStep(TheEnv(), path, scan, event);
        if event.OtherEvent? {
          continue;
        }
        count := count + 1;
        if !IsAssetEvent(TheEnv(), event) {
          continue;
        }
        var kind := KindOf(event);
        ghost var r := ResolveTarget(TheEnv(), event.destination);
        BothAssociates(before, scan.effects, EffectsOf(r, path, MarkdownLocation(count, kind)));
        var target := ResolveReference(path, MarkdownLocation(count, kind), event.destination, setup,
                                       Both(before, scan.effects));
        if target.None? {
          continue;
        }
        references := Enter(target.value, references);
        destinations := destinations + [Destination(count, event.range, kind, event.destination, target.value)];
      }
      assert events[..|events|] == events;
    }

    method ResolvePost(document: PostDocument, ghost setup: seq<ResolutionError>, ghost before: Effects)
      returns (post: PreparedPost)
      requires Recorded(setup, before)
      modifies this`resolved, this`errors, this`warnings
      ensures post == PreparePost(TheEnv(), document)
      ensures Recorded(setup, Both(before, PostEffects(TheEnv(), document)))
    {
      ghost var first := OptionalEffects(TheEnv(), document.path, PostPreviewImage, document.image);
      var image := ResolveOptional(document.path, PostPreviewImage, document.image, setup, before);
      var references, destinations := ResolveDestinations(document, setup, Both(before, first));
      BothAssociates(before, first, PostScan(TheEnv(), document).effects);
      var content := DigestPostContent(document, hash);
      var source := BindPostSource(document, content, hash);
      var policy := BindPolicy(allowedOrigins, hash);
      post := PreparedPost(document, ResolvedPostAssets(source, policy, image, references, destinations), content);
    }

    method SetUp()
      requires allowedOrigins == [] && discovered == map[] && resolved == map[] && errors == [] && warnings == []
      modifies this
      ensures TheEnv() == EnvOf(lib, hash, input) && Recorded(SetupErrors(lib, input), Nothing())
    {
      IndexLocalAssets();
      ResolveAllowedOrigins();
      assert [] + Index(input.assets).1 == Index(input.assets).1;
      assert errors == SetupErrors(lib, input) + [];
    }

    method ResolveSite(ghost setup: seq<ResolutionError>) returns (site: ResolvedSiteAssets)
      requires Recorded(setup, Nothing())
      modifies this`resolved, this`errors, this`warnings
      ensures site == SiteAssets(TheEnv(), input.publication) && Recorded(setup, SiteEffects(TheEnv(), input))
    {
      var path, publication := input.publicationPath, input.publication;
      ghost var first := OptionalEffects(TheEnv(), path, PublicationFavicon, publication.favicon);
      NothingFirst(first);
      var favicon := ResolveOptional(path, PublicationFavicon, publication.favicon, setup, Nothing());
      var image := ResolveOptional(path, PublicationImage, publication.image, setup, first);
      var source := BindPublicationSource(publication, hash);
      var policy := BindPolicy(allowedOrigins, hash);
      site := ResolvedSiteAssets(source, policy, favicon, image, allowedOrigins, []);
    }

    /** Resolves the whole tree; every error is reported, in canonical order. */
    method Resolve() returns (r: Prepared)
      requires allowedOrigins == [] && discovered == map[] && resolved == map[] && errors == [] && warnings == []
      modifies this
      ensures Answers(EnvOf(lib, hash, input), input, SetupErrors(lib, input), r)
    {
      SetUp();
      ghost var setup, site0 := SetupErrors(lib, input), SiteEffects(TheEnv(), input);
      var site := ResolveSite(setup);
      var posts := ResolvePosts(setup, site0);
      if errors != [] {
        return Rejected(Canonicalise(ErrorKey, errors));
      }
      return Ready(PreparedContent(input.publication, site, posts, resolved, Canonicalise(WarningKey, warnings)));
    }

    method ResolvePosts(ghost setup: seq<ResolutionError>, ghost before: Effects) returns (posts: seq<PreparedPost>)
      requires Recorded(setup, before)
      modifies this`resolved, this`errors, this`warnings
      ensures posts == PreparePosts(TheEnv(), input.posts)
      ensures Recorded(setup, Both(before, PostsEffects(TheEnv(), input.posts)))
    {
      ghost var env := TheEnv();
      posts := [];
      NothingLast(before);
      assert input.posts[..0] == [];
      for i := 0 to |input.posts|
        invariant TheEnv() == env && posts == PreparePosts(env, input.posts[..i])
        invariant Recorded(setup, Both(before, PostsEffects(env, input.posts[..i])))
      {
        ghost var done := PostsEffects(env, input.posts[..i]);
        var post := ResolvePost(input.posts[i], setup, Both(before, done));
        assert TheEnv() == env;
        PostsStep(env, input.posts, i, before);
        posts := posts + [post];
      }
      assert input.posts[..|input.posts|] == input.posts;
    }
  }

  lemma PostsStep(env: Env, documents: seq<PostDocument>, i: nat, before: Effects)
    requires i < |documents|
    ensures PreparePosts(env, documents[..i + 1])
            == PreparePosts(env, documents[..i]) + [PreparePost(env, documents[i])]
    ensures Both(before, PostsEffects(env, documents[..i + 1]))
         == Both(Both(before, PostsEffects(env, documents[..i])), PostEffects(env, documents[i]))
  {
    assert documents[..i + 1][..i] == documents[..i];
    BothAssociates(before, PostsEffects(env, documents[..i]), PostEffects(env, documents[i]));
  }

  /** What resolving an input has to answer: every recorded error, or the prepared content. */
  ghost predicate Answers(env: Env, input: Validated, setup: seq<ResolutionError>, r: Prepared) {
    var effects := AllEffects(env, input);
    if setup + effects.errors != [] then r == Rejected(Canonicalise(ErrorKey, setup + effects.errors))
    else
      && r.Ready? && r.content.publication == input.publication && r.content.site == SiteAssets(env, input.publication)
      && r.content.posts == PreparePosts(env, input.posts)
      && r.content.warnings == Canonicalise(WarningKey, effects.warnings)
      && StoreOf(env, r.content.store, effects.locals)
  }

  lemma NothingFirst(a: Effects)
    ensures Both(Nothing(), a) == a
  {
    assert [] + a.errors == a.errors && [] + a.warnings == a.warnings && {} + a.locals == a.locals;
  }

  lemma NothingLast(a: Effects)
    ensures Both(a, Nothing()) == a
  {
    assert a.errors + [] == a.errors && a.warnings + [] == a.warnings && a.locals + {} == a.locals;
  }

  lemma BothAssociates(a: Effects, b: Effects, c: Effects)
    ensures Both(Both(a, b), c) == Both(a, Both(b, c))
  {
    assert (a.errors + b.errors) + c.errors == a.errors + (b.errors + c.errors);
    assert (a.warnings + b.warnings) + c.warnings == a.warnings + (b.warnings + c.warnings);
    assert (a.locals + b.locals) + c.locals == a.locals + (b.locals + c.locals);
  }
}
