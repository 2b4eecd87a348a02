/** What a successful resolution guarantees: closure of the prepared content under its references. */
module ResolverClosure {
  import opened Framing
  import opened Ordering
  import opened Content
  import opened Transcripts
  import opened KeyedSorts
  import opened Diagnostics
  import opened Documents
  import opened Identities
  import opened SiteIdentities
  import opened AssetTargets
  import opened Resolvers

  // One post: destinations.

  /** How many of the first `n` events carry a destination. */
  function Destinations(events: seq<Event>, n: nat): nat
    requires n <= |events|
  {
    if n == 0 then 0 else Destinations(events, n - 1) + if events[n - 1].OtherEvent? then 0 else 1
  }

  /** `d` records event `k`: its 1-based position among all destinations, and its resolved target. */
  ghost predicate Records(env: Env, events: seq<Event>, k: int, d: Destination) {
    && 0 <= k < |events| && IsAssetEvent(env, events[k])
    && d.ordinal == Destinations(events, k + 1)
    && d.kind == KindOf(events[k]) && d.range == events[k].range && d.authored == events[k].destination
    && ResolveTarget(env, d.authored).Found? && ResolveTarget(env, d.authored).target == d.target
  }

  ghost predicate Recorded(env: Env, events: seq<Event>, k: int, ds: seq<Destination>) {
    exists d :: d in ds && Records(env, events, k, d)
  }

  /** Event `k` failed, and an error at its position says so. */
  ghost predicate Reported(env: Env, path: Bytes, events: seq<Event>, k: int, errors: seq<ResolutionError>) {
    0 <= k < |events| && !events[k].OtherEvent?
    && exists error :: error in errors && error.path == path
                       && error.location == MarkdownLocation(Destinations(events, k + 1), KindOf(events[k]))
  }

  ghost predicate OrdinalsIncrease(ds: seq<Destination>) {
    forall i, j | 0 <= i < j < |ds| :: ds[i].ordinal < ds[j].ordinal
  }

  lemma {:induction false} DestinationsOfPrefix(events: seq<Event>, n: nat, m: nat)
    requires n <= m <= |events|
    ensures Destinations(events[..m], n) == Destinations(events, n)
  {
    if n > 0 {
      DestinationsOfPrefix(events, n - 1, m);
    }
  }

  lemma {:induction false} ScanCounts(env: Env, path: Bytes, events: seq<Event>)
    ensures ScanEvents(env, path, events).count == Destinations(events, |events|)
  {
    if events != [] {
      ScanCounts(env, path, events[..|events| - 1]);
      DestinationsOfPrefix(events, |events| - 1, |events| - 1);
    }
  }

  lemma RecordsOfPrefix(env: Env, events: seq<Event>, k: int, d: Destination)
    requires events != [] && 0 <= k < |events| - 1
    ensures Records(env, events[..|events| - 1], k, d) <==> Records(env, events, k, d)
  {
    var before := events[..|events| - 1];
    assert before[k] == events[k];
    DestinationsOfPrefix(events, k + 1, |before|);
    assert Destinations(before, k + 1) == Destinations(events, k + 1);
  }

  /** Recorded destinations are in event order, and each one records its event. */
  lemma {:induction false} DestinationsRecordEvents(env: Env, path: Bytes, events: seq<Event>)
    ensures OrdinalsIncrease(ScanEvents(env, path, events).destinations)
    ensures forall d | d in ScanEvents(env, path, events).destinations ::
              d.ordinal <= ScanEvents(env, path, events).count && exists k :: Records(env, events, k, d)
  {
    if events != [] {
      var last := |events| - 1;
      var before, after := ScanEvents(env, path, events[..last]), ScanEvents(env, path, events);
      DestinationsRecordEvents(env, path, events[..last]);
      ScanCounts(env, path, events);
      forall d | d in after.destinations ensures d.ordinal <= after.count && exists k :: Records(env, events, k, d) {
        if d in before.destinations {
          var k :| Records(env, events[..last], k, d);
          RecordsOfPrefix(env, events, k, d);
        } else {
          assert Records(env, events, last, d);
        }
      }
      forall i, j | 0 <= i < j < |after.destinations|
        ensures after.destinations[i].ordinal < after.destinations[j].ordinal
      {
        assert after.destinations[i] in before.destinations;
      }
    }
  }

  /** Every asset event is recorded, or an error at its position reports it. */
  lemma {:induction false} EventsAreRecordedOrReported(env: Env, path: Bytes, events: seq<Event>, k: nat)
    requires k < |events| && IsAssetEvent(env, events[k])
    ensures || Recorded(env, events, k, ScanEvents(env, path, events).destinations)
            || Reported(env, path, events, k, ScanEvents(env, path, events).effects.errors)
  {
    var last := |events| - 1;
    if k < last {
      var before := ScanEvents(env, path, events[..last]);
      EventsAreRecordedOrReported(env, path, events[..last], k);
      if Recorded(env, events[..last], k, before.destinations) {
        RecordedStays(env, path, events, k);
      } else {
        ReportedStays(env, path, events, k);
      }
    } else {
      LastEventIsRecordedOrReported(env, path, events);
    }
  }

  lemma RecordedStays(env: Env, path: Bytes, events: seq<Event>, k: nat)
    requires k < |events| - 1
    requires Recorded(env, events[..|events| - 1], k, ScanEvents(env, path, events[..|events| - 1]).destinations)
    ensures Recorded(env, events, k, ScanEvents(env, path, events).destinations)
  {
    var prefix := events[..|events| - 1];
    var d :| d in ScanEvents(env, path, prefix).destinations && Records(env, prefix, k, d);
    RecordsOfPrefix(env, events, k, d);
    assert d in ScanEvents(env, path, events).destinations;
  }

  lemma ReportedStays(env: Env, path: Bytes, events: seq<Event>, k: nat)
    requires k < |events| - 1
    requires Reported(env, path, events[..|events| - 1], k,
                      ScanEvents(env, path, events[..|events| - 1]).effects.errors)
    ensures Reported(env, path, events, k, ScanEvents(env, path, events).effects.errors)
  {
    var prefix := events[..|events| - 1];
    DestinationsOfPrefix(events, k + 1, |events| - 1);
    var error :| error in ScanEvents(env, path, prefix).effects.errors && error.path == path
                 && error.location == MarkdownLocation(Destinations(prefix, k + 1), KindOf(prefix[k]));
    ErrorsGrow(env, path, ScanEvents(env, path, prefix), events[|events| - 1], error);
  }

  lemma ErrorsGrow(env: Env, path: Bytes, scan: Scan, event: Event, error: ResolutionError)
    requires error in scan.effects.errors
    ensures error in ScanStep(env, path, scan, event).effects.errors
  {
  }

  lemma LastEventIsRecordedOrReported(env: Env, path: Bytes, events: seq<Event>)
    requires events != [] && IsAssetEvent(env, events[|events| - 1])
    ensures || Recorded(env, events, |events| - 1, ScanEvents(env, path, events).destinations)
            || Reported(env, path, events, |events| - 1, ScanEvents(env, path, events).effects.errors)
  {
    var last := |events| - 1;
    var event, after := events[last], ScanEvents(env, path, events);
    var r := ResolveTarget(env, event.destination);
    ScanCounts(env, path, events);
    if r.Found? {
      var d := after.destinations[|after.destinations| - 1];
      assert d in after.destinations && Records(env, events, last, d);
    } else {
      var error := after.effects.errors[|after.effects.errors| - 1];
      assert error in after.effects.errors && error.path == path;
    }
  }

  // One post: references.

  lemma {:induction false} EnterMembers(x: Reference, xs: seq<Reference>)
    ensures forall y :: y in Enter(x, xs) ==> y == x || y in xs
    ensures forall y :: y in xs ==> y in Enter(x, xs)
    ensures exists y :: y in Enter(x, xs) && ReferenceKey(y) == ReferenceKey(x)
  {
    if xs == [] || LexLess(ReferenceKey(x), ReferenceKey(xs[0])) {
      assert x in Enter(x, xs);
    } else if ReferenceKey(x) == ReferenceKey(xs[0]) {
      assert xs[0] in Enter(x, xs);
    } else {
      EnterMembers(x, xs[1..]);
      assert xs == [xs[0]] + xs[1..];
      var y :| y in Enter(x, xs[1..]) && ReferenceKey(y) == ReferenceKey(x);
      assert y in Enter(x, xs);
    }
  }

  lemma LessTransitive(a: Bytes, b: Bytes, c: Bytes)
    requires LexLess(a, b) && LexLess(b, c)
    ensures LexLess(a, c)
  {
    LexTransitive(a, b, c);
    if a == c {
      LexAntisymmetric(a, b);
    }
  }

  lemma IncreasingTail(xs: seq<Reference>)
    requires xs != [] && Increasing(xs)
    ensures Increasing(xs[1..])
  {
    forall i, j | 0 <= i < j < |xs| - 1 ensures LexLess(ReferenceKey(xs[1..][i]), ReferenceKey(xs[1..][j])) {
      assert LexLess(ReferenceKey(xs[i + 1]), ReferenceKey(xs[j + 1]));
    }
  }

  lemma IncreasingCons(x: Reference, xs: seq<Reference>)
    requires Increasing(xs) && forall y | y in xs :: LexLess(ReferenceKey(x), ReferenceKey(y))
    ensures Increasing([x] + xs)
  {
    var all := [x] + xs;
    forall i, j | 0 <= i < j < |all| ensures LexLess(ReferenceKey(all[i]), ReferenceKey(all[j])) {
      if i == 0 {
        assert all[j] in xs;
      } else {
        assert LexLess(ReferenceKey(xs[i - 1]), ReferenceKey(xs[j - 1]));
      }
    }
  }

  lemma {:induction false} EnterIncreases(x: Reference, xs: seq<Reference>)
    requires Increasing(xs)
    ensures Increasing(Enter(x, xs))
  {
    if xs == [] {
    } else if LexLess(ReferenceKey(x), ReferenceKey(xs[0])) {
      forall y | y in xs ensures LexLess(ReferenceKey(x), ReferenceKey(y)) {
        var j :| 0 <= j < |xs| && xs[j] == y;
        if j > 0 {
          LessTransitive(ReferenceKey(x), ReferenceKey(xs[0]), ReferenceKey(y));
        }
      }
      IncreasingCons(x, xs);
    } else if ReferenceKey(x) != ReferenceKey(xs[0]) {
      IncreasingTail(xs);
      EnterIncreases(x, xs[1..]);
      EnterMembers(x, xs[1..]);
      LexTotal(ReferenceKey(x), ReferenceKey(xs[0]));
      forall y | y in Enter(x, xs[1..]) ensures LexLess(ReferenceKey(xs[0]), ReferenceKey(y)) {
        if y in xs[1..] {
          var j :| 0 <= j < |xs| - 1 && xs[1..][j] == y;
          assert LexLess(ReferenceKey(xs[0]), ReferenceKey(xs[j + 1]));
        }
      }
      IncreasingCons(xs[0], Enter(x, xs[1..]));
    }
  }

  ghost predicate Targeted(ds: seq<Destination>, reference: Reference) {
    exists d :: d in ds && d.target == reference
  }

  /** The references of a post are exactly its destinations' targets, once each, in key order. */
  lemma {:induction false} ReferencesAreTargets(env: Env, path: Bytes, events: seq<Event>)
    ensures var scan := ScanEvents(env, path, events);
            && Increasing(scan.references)
            && (forall r :: r in scan.references <==> Targeted(scan.destinations, r))
            && (forall r | r in scan.references :: SoundTarget(env, r))
  {
    if events != [] {
      var last := |events| - 1;
      var before, event := ScanEvents(env, path, events[..last]), events[last];
      ReferencesAreTargets(env, path, events[..last]);
      if IsAssetEvent(env, event) && ResolveTarget(env, event.destination).Found? {
        var target := ResolveTarget(env, event.destination).target;
        FoundTargetsAreSound(env, event.destination);
        EnterIncreases(target, before.references);
        EnterSound(env, target, before.references);
        var d := Destination(before.count + 1, event.range, KindOf(event), event.destination, target);
        TargetedStep(before.destinations, d);
      }
    }
  }

  lemma TargetedStep(ds: seq<Destination>, d: Destination)
    ensures forall r :: Targeted(ds + [d], r) <==> Targeted(ds, r) || r == d.target
  {
    forall r ensures Targeted(ds + [d], r) <==> Targeted(ds, r) || r == d.target {
      if Targeted(ds, r) {
        var e :| e in ds && e.target == r;
        assert e in ds + [d];
      }
      if r == d.target {
        assert d in ds + [d];
      }
    }
  }

  lemma EnterSound(env: Env, x: Reference, xs: seq<Reference>)
    requires SoundTarget(env, x) && forall r | r in xs :: SoundTarget(env, r)
    ensures forall r :: r in Enter(x, xs) <==> r in xs || r == x
  {
    EnterMembers(x, xs);
    var y :| y in Enter(x, xs) && ReferenceKey(y) == ReferenceKey(x);
    KeysIdentifySoundTargets(env, x, y);
  }

  ghost predicate LocalTarget(ds: seq<Destination>, path: Bytes) {
    exists d :: d in ds && d.target.Local? && d.target.asset.path == path
  }

  lemma {:induction false} LocalsAreTargets(env: Env, path: Bytes, events: seq<Event>, p: Bytes)
    ensures var scan := ScanEvents(env, path, events);
            p in scan.effects.locals <==> LocalTarget(scan.destinations, p)
  {
    if events != [] {
      LocalsAreTargets(env, path, events[..|events| - 1], p);
      LocalsStep(env, path, ScanEvents(env, path, events[..|events| - 1]), events[|events| - 1], p);
    }
  }

  lemma LocalsStep(env: Env, path: Bytes, scan: Scan, event: Event, p: Bytes)
    requires p in scan.effects.locals <==> LocalTarget(scan.destinations, p)
    ensures var after := ScanStep(env, path, scan, event);
            p in after.effects.locals <==> LocalTarget(after.destinations, p)
  {
    if IsAssetEvent(env, event) {
      var r := ResolveTarget(env, event.destination);
      var location := MarkdownLocation(scan.count + 1, KindOf(event));
      BothLocals(scan.effects, EffectsOf(r, path, location), p);
      EffectsLocals(r, path, location, p);
      if r.Found? {
        LocalTargetStep(scan.destinations,
                        Destination(scan.count + 1, event.range, KindOf(event), event.destination, r.target), p);
      }
    }
  }

  lemma BothLocals(a: Effects, b: Effects, p: Bytes)
    ensures p in Both(a, b).locals <==> p in a.locals || p in b.locals
  {
  }

  lemma LocalTargetStep(ds: seq<Destination>, d: Destination, p: Bytes)
    ensures LocalTarget(ds + [d], p) <==> LocalTarget(ds, p) || OptionalLocal(Some(d.target), p)
  {
    if LocalTarget(ds, p) {
      var e :| e in ds && e.target.Local? && e.target.asset.path == p;
      assert e in ds + [d];
    }
    if OptionalLocal(Some(d.target), p) {
      assert d in ds + [d];
    }
  }

  lemma EffectsLocals(r: Resolution, path: Bytes, location: Location, p: Bytes)
    ensures p in EffectsOf(r, path, location).locals <==> OptionalLocal(TargetOf(r), p)
  {
    if r.Found? && r.target.Local? {
      assert EffectsOf(r, path, location).locals == {r.target.asset.path};
    }
  }

  lemma OptionalLocals(env: Env, path: Bytes, location: Location, authored: Option<Bytes>, p: Bytes)
    ensures p in OptionalEffects(env, path, location, authored).locals <==>
            OptionalLocal(OptionalTarget(env, authored), p)
  {
    if authored.Some? {
      EffectsLocals(ResolveTarget(env, authored.value), path, location, p);
    }
  }

  // The whole content.

  ghost predicate OptionalLocal(reference: Option<Reference>, path: Bytes) {
    reference.Some? && reference.value.Local? && reference.value.asset.path == path
  }

  ghost predicate PostUses(post: PreparedPost, path: Bytes) {
    OptionalLocal(post.assets.image, path) || LocalTarget(post.assets.destinations, path)
  }

  /** Some reference of the prepared content names the local path. */
  ghost predicate Uses(content: PreparedContent, path: Bytes) {
    || OptionalLocal(content.site.favicon, path) || OptionalLocal(content.site.image, path)
    || exists post :: post in content.posts && PostUses(post, path)
  }

  lemma PostLocals(env: Env, document: PostDocument, path: Bytes)
    ensures path in PostEffects(env, document).locals <==> PostUses(PreparePost(env, document), path)
  {
    LocalsAreTargets(env, document.path, env.lib.events(document.markdown), path);
    BothLocals(OptionalEffects(env, document.path, PostPreviewImage, document.image), PostScan(env, document).effects,
               path);
    OptionalLocals(env, document.path, PostPreviewImage, document.image, path);
  }

  ghost predicate SomePostUses(posts: seq<PreparedPost>, path: Bytes) {
    exists post :: post in posts && PostUses(post, path)
  }

  lemma {:induction false} PostsLocals(env: Env, documents: seq<PostDocument>, path: Bytes)
    ensures path in PostsEffects(env, documents).locals <==> SomePostUses(PreparePosts(env, documents), path)
  {
    if documents != [] {
      var last := |documents| - 1;
      PostsLocals(env, documents[..last], path);
      PostLocals(env, documents[last], path);
      SomePostStep(PreparePosts(env, documents[..last]), PreparePost(env, documents[last]), path);
    }
  }

  lemma SomePostStep(posts: seq<PreparedPost>, post: PreparedPost, path: Bytes)
    ensures SomePostUses(posts + [post], path) <==> SomePostUses(posts, path) || PostUses(post, path)
  {
    if SomePostUses(posts, path) {
      var other :| other in posts && PostUses(other, path);
      assert other in posts + [post];
    }
    if PostUses(post, path) {
      assert post in posts + [post];
    }
  }

  lemma {:induction false} PreparedPostsAt(env: Env, documents: seq<PostDocument>, i: nat)
    requires i < |documents|
    ensures PreparePosts(env, documents)[i] == PreparePost(env, documents[i])
  {
    if i < |documents| - 1 {
      PreparedPostsAt(env, documents[..|documents| - 1], i);
    }
  }

  lemma {:induction false} NoErrorsAnywhere(env: Env, documents: seq<PostDocument>, i: nat)
    requires i < |documents| && PostsEffects(env, documents).errors == []
    ensures PostEffects(env, documents[i]).errors == []
  {
    if i < |documents| - 1 {
      NoErrorsAnywhere(env, documents[..|documents| - 1], i);
    }
  }

  /** What a resolution of `input` answered. */
  ghost predicate Resolved(lib: Library, hash: Hash, input: Validated, content: PreparedContent) {
    Answers(EnvOf(lib, hash, input), input, SetupErrors(lib, input), Ready(content))
  }

  /** The store holds exactly the referenced paths, with the discovered bytes under their digests. */
  lemma StoreIsTheReferencedAssets(lib: Library, hash: Hash, input: Validated, content: PreparedContent, path: Bytes)
    requires Resolved(lib, hash, input, content)
    ensures path in content.store <==> Uses(content, path)
    ensures path in content.store ==>
              var env := EnvOf(lib, hash, input);
              path in env.discovered
              && ResolveStored(content.store, DigestedAsset(path, AssetDigest(env.discovered[path], hash)))
                 == Stored(StoredAsset(DigestedAsset(path, AssetDigest(env.discovered[path], hash)),
                                       env.discovered[path]))
  {
    var env := EnvOf(lib, hash, input);
    PostsLocals(env, input.posts, path);
    SiteLocals(env, input, path);
    assert path in content.store <==> path in AllEffects(env, input).locals;
  }

  lemma SiteLocals(env: Env, input: Validated, path: Bytes)
    ensures path in SiteEffects(env, input).locals <==>
            || OptionalLocal(SiteAssets(env, input.publication).favicon, path)
            || OptionalLocal(SiteAssets(env, input.publication).image, path)
  {
    OptionalLocals(env, input.publicationPath, PublicationFavicon, input.publication.favicon, path);
    OptionalLocals(env, input.publicationPath, PublicationImage, input.publication.image, path);
  }

  /** Every asset event recorded once, at its position, and nothing else recorded; targets sound;
      references exactly the targets. */
  ghost predicate Closed(env: Env, events: seq<Event>, ds: seq<Destination>, references: seq<Reference>) {
    && OrdinalsIncrease(ds)
    && (forall d | d in ds :: exists k :: Records(env, events, k, d))
    && (forall k | 0 <= k < |events| && IsAssetEvent(env, events[k]) :: Recorded(env, events, k, ds))
    && (forall r :: r in references <==> Targeted(ds, r))
    && (forall r | r in references :: SoundTarget(env, r))
  }

  lemma ScanIsClosed(env: Env, path: Bytes, events: seq<Event>)
    requires ScanEvents(env, path, events).effects.errors == []
    ensures Closed(env, events, ScanEvents(env, path, events).destinations, ScanEvents(env, path, events).references)
  {
    DestinationsRecordEvents(env, path, events);
    ReferencesAreTargets(env, path, events);
    forall k | 0 <= k < |events| && IsAssetEvent(env, events[k])
      ensures Recorded(env, events, k, ScanEvents(env, path, events).destinations)
    {
      EventsAreRecordedOrReported(env, path, events, k);
    }
  }

  lemma PostIsClosed(env: Env, document: PostDocument)
    requires PostEffects(env, document).errors == []
    ensures Closed(env, env.lib.events(document.markdown), PreparePost(env, document).assets.destinations,
                   PreparePost(env, document).assets.references)
  {
    ScanIsClosed(env, document.path, env.lib.events(document.markdown));
  }

  /** Each post of a prepared content is its document with a closed set of destinations and references. */
  lemma PreparedPostIsClosed(lib: Library, hash: Hash, input: Validated, content: PreparedContent, i: nat)
    requires Resolved(lib, hash, input, content) && i < |content.posts|
    ensures |content.posts| == |input.posts| && content.posts[i].document == input.posts[i]
    ensures Closed(EnvOf(lib, hash, input), lib.events(input.posts[i].markdown),
                   content.posts[i].assets.destinations, content.posts[i].assets.references)
  {
    ResolvedPosts(lib, hash, input, content);
    PreparedPostsAreClosed(EnvOf(lib, hash, input), input.posts, i);
  }

  lemma ResolvedPosts(lib: Library, hash: Hash, input: Validated, content: PreparedContent)
    requires Resolved(lib, hash, input, content)
    ensures content.posts == PreparePosts(EnvOf(lib, hash, input), input.posts)
    ensures PostsEffects(EnvOf(lib, hash, input), input.posts).errors == []
  {
    AnsweredPosts(EnvOf(lib, hash, input), input, SetupErrors(lib, input), content);
  }

  lemma AnsweredPosts(env: Env, input: Validated, setup: seq<ResolutionError>, content: PreparedContent)
    requires Answers(env, input, setup, Ready(content))
    ensures content.posts == PreparePosts(env, input.posts) && PostsEffects(env, input.posts).errors == []
  {
    var effects := AllEffects(env, input);
    if setup + effects.errors == [] {
      assert effects.errors == [];
    }
  }

  lemma PreparedPostsAreClosed(env: Env, documents: seq<PostDocument>, i: nat)
    requires i < |documents| && PostsEffects(env, documents).errors == []
    ensures var post := PreparePosts(env, documents)[i];
            && post.document == documents[i]
            && Closed(env, env.lib.events(documents[i].markdown), post.assets.destinations, post.assets.references)
  {
    PreparedPostsAt(env, documents, i);
    NoErrorsAnywhere(env, documents, i);
    PostIsClosed(env, documents[i]);
  }

  /** Every local target of a post reads back from the store. */
  lemma PostTargetsAreStored(lib: Library, hash: Hash, input: Validated, content: PreparedContent, i: nat,
                             reference: Reference)
    requires Resolved(lib, hash, input, content) && i < |content.posts|
    requires reference in content.posts[i].assets.references && reference.Local?
    ensures ResolveStored(content.store, reference.asset).Stored?
    ensures ResolveStored(content.store, reference.asset).asset.bytes
            == EnvOf(lib, hash, input).discovered[reference.asset.path]
  {
    PreparedPostIsClosed(lib, hash, input, content, i);
    ClosedReferencesAreUsed(EnvOf(lib, hash, input), lib.events(input.posts[i].markdown), content.posts[i], reference);
    StoreIsTheReferencedAssets(lib, hash, input, content, reference.asset.path);
  }

  lemma ClosedReferencesAreUsed(env: Env, events: seq<Event>, post: PreparedPost, reference: Reference)
    requires Closed(env, events, post.assets.destinations, post.assets.references)
    requires reference in post.assets.references && reference.Local?
    ensures PostUses(post, reference.asset.path)
    ensures SoundTarget(env, reference)
  {
    assert Targeted(post.assets.destinations, reference);
    var d :| d in post.assets.destinations && d.target == reference;
    assert LocalTarget(post.assets.destinations, reference.asset.path);
  }

  /** For every post of a prepared content the fast path gives the checked path's digest, which
      succeeds: the references are in order and both bindings agree. */
  lemma FastPathIsTheCheckedPath(lib: Library, hash: Hash, input: Validated, content: PreparedContent, i: nat,
                                 renderer: PostRenderer, article: Bytes)
    requires Resolved(lib, hash, input, content) && i < |content.posts|
    ensures var post := content.posts[i];
            PostRevision(RevisionInput(post.document, post.assets, Some(content.site), renderer, article, []), hash)
            == Identity(PreparedRevision(post.content, post.assets, renderer, article, hash))
  {
    var env, document, post := EnvOf(lib, hash, input), input.posts[i], content.posts[i];
    PreparedPostsAt(env, input.posts, i);
    ReferencesAreTargets(env, document.path, lib.events(document.markdown));
    PreparedIsChecked(RevisionInput(post.document, post.assets, Some(content.site), renderer, article, []), hash);
  }

  lemma {:induction false} AllowlistIsDistinct(lib: Library, path: Bytes, authored: seq<Bytes>)
    ensures Distinct(Allowlist(lib, path, authored).0)
  {
    if authored != [] {
      AllowlistIsDistinct(lib, path, authored[..|authored| - 1]);
    }
  }

  /** A snapshot of prepared content is refused for nothing but a repeated public post. */
  lemma PreparedSiteIsAccepted(lib: Library, hash: Hash, input: Validated, content: PreparedContent, bundle: Digest,
                               shell: Digest, posts: seq<PublicPost>)
    requires Resolved(lib, hash, input, content)
    ensures SiteSnapshot(SnapshotInput(content.publication, content.site, bundle, shell, posts), hash).Identity?
            <==> DistinctKeys(PublicPostKey, posts)
  {
    var origins := Allowlist(lib, input.publicationPath, input.publication.allowedOrigins).0;
    AllowlistIsDistinct(lib, input.publicationPath, input.publication.allowedOrigins);
    SortPermutes(LexLeq, origins);
    DistinctIsPermutationInvariant(origins, content.site.allowedOrigins);
    assert Map(Itself, content.site.allowedOrigins) == content.site.allowedOrigins;
    SiteSnapshotAccepts(SnapshotInput(content.publication, content.site, bundle, shell, posts), hash);
  }

  /** A failed resolution reports every error once, in strictly increasing order. */
  lemma RejectionsAreCanonical(lib: Library, hash: Hash, input: Validated, errors: seq<ResolutionError>)
    requires Answers(EnvOf(lib, hash, input), input, SetupErrors(lib, input), Rejected(errors))
    ensures StrictlyIncreasing(ErrorKey, errors) && errors != []
    ensures forall error :: error in errors <==>
                            error in SetupErrors(lib, input)
                            || error in AllEffects(EnvOf(lib, hash, input), input).errors
  {
    var all := SetupErrors(lib, input) + AllEffects(EnvOf(lib, hash, input), input).errors;
    ResolverKeysIdentify();
    CanonicaliseMeaning(ErrorKey, all);
    assert all[0] in errors;
  }
}
