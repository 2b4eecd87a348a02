/** How one authored destination is classified and resolved against the discovered assets and the
    allowlist. */
module AssetTargets {
  import opened Framing
  import opened Content
  import opened Transcripts
  import opened Texts
  import opened Documents

  const ASSET_CONTEXT := "maincopy asset digest v1"

  function AssetDigest(bytes: Bytes, hash: Hash): Digest {
    hash(ASSET_CONTEXT, Header(Ascii("maincopy-asset"), 1) + Frame(bytes))
  }

  datatype Endpoint = Endpoint(scheme: Bytes, host: Option<Bytes>, port: Option<nat>)

  datatype Event =
    | ImageStart(destination: Bytes, range: (nat, nat))
    | LinkStart(destination: Bytes, range: (nat, nat))
    | OtherEvent

  /** What the URL and CommonMark libraries answer. */
  datatype Library = Library(
    parseAssetUrl: Bytes -> Option<Bytes>,
    parseOrigin: Bytes -> Option<Bytes>,
    endpoint: Bytes -> Option<Endpoint>,
    looksImmutable: Bytes -> bool,
    events: Bytes -> seq<Event>)

  /** What resolution looks things up in: the discovered assets and the effective allowlist. */
  datatype Env = Env(lib: Library, hash: Hash, discovered: map<Bytes, Bytes>, origins: seq<Bytes>)

  datatype Code =
    | AllowedOriginInvalid
    | AllowedOriginDuplicated
    | LocalAssetDuplicated
    | LocalAssetPathInvalid
    | LocalAssetMissing
    | ExternalAssetUrlInvalid
    | ExternalAssetOriginNotAllowed

  // Lexical classification.

  predicate LooksExternal(value: Bytes) {
    || [SLASH, SLASH] <= value
    || Contains(value, [COLON, SLASH, SLASH])
    || (COLON in value && IndexOf(value, {COLON}) < IndexOf(value, {SLASH, BACKSLASH}))
  }

  function RawHttpsHost(value: Bytes): Option<Bytes> {
    var parts := SplitOnce(Trim(value), [COLON, SLASH, SLASH]);
    if parts.None? || Lowercase(parts.value.0) != Ascii("https") then None
    else
      var remainder := parts.value.1;
      var authority := AfterLast(remainder[..IndexOf(remainder, {SLASH, 63, 35})], AT);
      if authority != [] && authority[0] == 91 then
        if 93 in authority && IndexOf(authority, {93}) >= 1 then Some(authority[1..IndexOf(authority, {93})]) else None
      else
        var host := authority[..IndexOf(authority, {COLON})];
        if host == [] then None else Some(host)
  }

  predicate LooksLocal(value: Bytes) {
    && !LooksExternal(value)
    && var lower := Lowercase(Trim(value));
       || lower == Ascii("assets")
       || Ascii("assets/") <= lower || Ascii("assets\\") <= lower || Ascii("assets%") <= lower
       || Ascii("/assets/") <= lower || Ascii("./assets/") <= lower || Ascii("../assets/") <= lower
       || Ascii("assets") in Pieces(lower, {SLASH, BACKSLASH})
  }

  predicate AllowsEndpoint(env: Env, endpoint: Option<Endpoint>) {
    endpoint.Some? && exists origin | origin in env.origins :: env.lib.endpoint(origin) == endpoint
  }

  predicate AllowsHost(env: Env, host: Bytes) {
    exists origin | origin in env.origins ::
      && env.lib.endpoint(origin).Some? && env.lib.endpoint(origin).value.host.Some?
      && Lowercase(env.lib.endpoint(origin).value.host.value) == Lowercase(host)
  }

  predicate HasAllowedOrigin(env: Env, authored: Bytes) {
    if env.lib.endpoint(authored).Some? then AllowsEndpoint(env, env.lib.endpoint(authored))
    else RawHttpsHost(authored).Some? && AllowsHost(env, RawHttpsHost(authored).value)
  }

  predicate IsFileReference(env: Env, value: Bytes) {
    LooksLocal(value) || HasAllowedOrigin(env, value)
  }

  predicate LogicalAssetPath(value: Bytes) {
    PortablePath(value) && AssetNamespace(value)
  }

  // Resolution of one destination.

  datatype Resolution = Found(target: Reference, mutable: bool) | Missed(code: Code, detail: Bytes)

  function ResolveTarget(env: Env, authored: Bytes): Resolution {
    if LooksExternal(authored) then ResolveExternal(env, authored)
    else if !LogicalAssetPath(authored) then Missed(LocalAssetPathInvalid, authored)
    else if authored !in env.discovered then Missed(LocalAssetMissing, authored)
    else Found(Local(DigestedAsset(authored, AssetDigest(env.discovered[authored], env.hash))), false)
  }

  function ResolveExternal(env: Env, authored: Bytes): Resolution {
    var url := env.lib.parseAssetUrl(authored);
    if url.None? then Missed(ExternalAssetUrlInvalid, [])
    else if !AllowsEndpoint(env, env.lib.endpoint(url.value)) then Missed(ExternalAssetOriginNotAllowed, [])
    else Found(External(url.value), !env.lib.looksImmutable(url.value))
  }

  /** A target is sound: discovered bytes with their own digest, or a URL on an allowed origin. */
  ghost predicate SoundTarget(env: Env, target: Reference) {
    match target
    case Local(asset) =>
      asset.path in env.discovered && asset.digest == AssetDigest(env.discovered[asset.path], env.hash)
    case External(url) =>
      AllowsEndpoint(env, env.lib.endpoint(url))
  }

  lemma FoundTargetsAreSound(env: Env, authored: Bytes)
    ensures ResolveTarget(env, authored).Found? ==> SoundTarget(env, ResolveTarget(env, authored).target)
  {
  }

  /** Sound targets with one key are one target. */
  lemma KeysIdentifySoundTargets(env: Env, x: Reference, y: Reference)
    requires SoundTarget(env, x) && SoundTarget(env, y) && ReferenceKey(x) == ReferenceKey(y)
    ensures x == y
  {
    assert ReferenceKey(x)[0] == ReferenceKey(y)[0];
    assert ReferenceKey(x)[1..] == ReferenceKey(y)[1..];
    if x.Local? {
      assert [0] + x.asset.path == [0] + y.asset.path;
      assert ([0] + x.asset.path)[1..] == x.asset.path;
      assert ([0] + y.asset.path)[1..] == y.asset.path;
    } else {
      assert ([1] + x.url)[1..] == x.url;
      assert ([1] + y.url)[1..] == y.url;
    }
  }

  lemma {:induction false} ComponentBytes(path: Bytes, k: nat)
    requires k < |path| && path[k] != SLASH
    ensures exists component :: component in Components(path) && path[k] in component
  {
    var rest := Components(path[1..]);
    if k == 0 {
      assert Components(path)[0][0] == path[0];
      assert Components(path)[0] in Components(path);
    } else {
      ComponentBytes(path[1..], k - 1);
      var component :| component in rest && path[k] in component;
      if path[0] == SLASH {
        assert component in [[]] + rest;
      } else if component == rest[0] {
        assert ([[path[0]] + rest[0]] + rest[1..])[0] == [path[0]] + rest[0];
        assert path[k] in [path[0]] + rest[0];
        assert [path[0]] + rest[0] in Components(path);
      } else {
        assert component in rest[1..];
        assert component in [[path[0]] + rest[0]] + rest[1..];
      }
    }
  }

  /** Every byte of a portable path is a separator or a portable byte. */
  lemma PortablePathBytes(path: Bytes, k: nat)
    requires PortablePath(path) && k < |path|
    ensures path[k] == SLASH || PortableByte(path[k])
  {
    if path[k] != SLASH {
      ComponentBytes(path, k);
    }
  }

  lemma NamespacePrefix(path: Bytes)
    requires AssetNamespace(path)
    ensures Ascii("assets/") <= path
  {
    var name := Ascii("assets");
    FirstComponent(path);
    assert path[..6] == name && path[6] == SLASH;
    assert Ascii("assets/") == name + [SLASH];
    assert path[..7] == name + [SLASH];
  }

  lemma {:induction false} FirstComponent(path: Bytes)
    ensures var first := Components(path)[0];
            first <= path && (|Components(path)| >= 2 ==> |first| < |path| && path[|first|] == SLASH)
  {
    if path != [] && path[0] != SLASH {
      FirstComponent(path[1..]);
      assert path == [path[0]] + path[1..];
    }
  }

  /** Every logical asset path is classified as a local file: links to assets never go unnoticed. */
  lemma AssetPathsAreFileReferences(env: Env, path: Bytes)
    requires LogicalAssetPath(path)
    ensures !LooksExternal(path) && LooksLocal(path) && IsFileReference(env, path)
  {
    forall k | 0 <= k < |path| ensures path[k] == SLASH || PortableByte(path[k]) {
      PortablePathBytes(path, k);
    }
    NamespacePrefix(path);
    assert COLON !in path;
    assert path[0] == Ascii("assets/")[0] == 97;
    forall i | 0 <= i <= |path| ensures !([COLON, SLASH, SLASH] <= path[i..]) {
      assert i < |path| ==> path[i..][0] != COLON;
    }
    PortablePathsAreTrimmed(path);
    LowercaseKeepsPrefix(path);
  }

  lemma {:induction false} PortablePathsAreTrimmed(path: Bytes)
    requires path != [] && forall k | 0 <= k < |path| :: path[k] == SLASH || PortableByte(path[k])
    ensures TrimStart(path) == path && TrimEnd(path) == path
  {
    UnspacedStart(path);
    NotSpacedAtEnd(path, 1);
    NotSpacedAtEnd(path, 2);
    NotSpacedAtEnd(path, 3);
    UnspacedEnd(path);
  }

  lemma {:induction false} UnspacedStart(s: Bytes)
    requires WhitespaceLength(s) == 0
    ensures TrimStart(s) == s
  {
  }

  lemma {:induction false} UnspacedEnd(s: Bytes)
    requires !EndsInWhitespace(s, 1) && !EndsInWhitespace(s, 2) && !EndsInWhitespace(s, 3)
    ensures TrimEnd(s) == s
  {
  }

  lemma {:induction false} NotSpacedAtEnd(s: Bytes, n: nat)
    requires 0 < n <= |s| ==> s[|s| - n] == SLASH || PortableByte(s[|s| - n])
    ensures !EndsInWhitespace(s, n)
  {
    if 0 < n <= |s| {
      assert s[|s| - n..][0] == s[|s| - n];
    }
  }

  lemma LowercaseKeepsPrefix(path: Bytes)
    requires Ascii("assets/") <= path
    ensures Ascii("assets/") <= Lowercase(path)
  {
    var prefix := Ascii("assets/");
    forall i | 0 <= i < |prefix| ensures Lowercase(path)[i] == prefix[i] {
      assert path[i] == prefix[i];
      assert "assets/"[i] in {'a', 's', 'e', 't', '/'};
    }
  }
}
