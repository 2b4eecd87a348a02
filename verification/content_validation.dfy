/** Validation of a whole content tree: parse every source, then check identities and routes across
    all posts, and report everything in one canonical list. */
module ContentValidation {
  import opened Framing
  import opened Ordering
  import opened Content
  import opened KeyedSorts
  import opened Diagnostics
  import opened Documents
  import opened ValidationDiagnostics
  import opened RouteClaims

  datatype Source = Source(path: Bytes, collection: Collection, contents: Bytes)

  /** What parsing one post yields: typed fields where they are valid, and diagnostics. */
  datatype Parsed = Parsed(
    document: Option<PostDocument>,
    id: Option<Bytes>,
    slug: Option<Bytes>,
    aliases: seq<(nat, Bytes)>,
    errors: seq<Diagnostic>)

  datatype ParsedPublication = ParsedPublication(path: Bytes, settings: Option<PublicationSettings>,
                                                 errors: seq<Diagnostic>)

  type Parser = Source -> Parsed

  datatype Validation =
    | Valid(publication: PublicationSettings, posts: seq<PostDocument>)
    | Invalid(errors: seq<Diagnostic>)

  function SourcePath(source: Source): Bytes {
    source.path
  }

  function CandidateOf(parse: Parser, index: nat, source: Source): Candidate {
    var p := parse(source);
    Candidate(index, source.path, p.id, p.slug, p.aliases, p.document)
  }

  function CandidatesOf(parse: Parser, sources: seq<Source>): (cs: seq<Candidate>)
    ensures |cs| == |sources|
    ensures forall i | 0 <= i < |cs| :: cs[i] == CandidateOf(parse, i, sources[i])
  {
    seq(|sources|, i requires 0 <= i < |sources| => CandidateOf(parse, i, sources[i]))
  }

  function InvariantError(path: Bytes): Diagnostic {
    Diagnostic(path, Ascii("$document"), INTERNAL_INVARIANT, [], None)
  }

  ghost predicate ParserReported(parse: Parser, sources: seq<Source>, d: Diagnostic) {
    exists i :: 0 <= i < |sources| && d in parse(sources[i]).errors
  }

  /** Everything that parsing, the identity check and the route check report. */
  ghost predicate Reported(publication: ParsedPublication, parse: Parser, sources: seq<Source>, d: Diagnostic) {
    || d in publication.errors || ParserReported(parse, sources, d)
    || d in IdentityReports(CandidatesOf(parse, sources)) || IsRouteReport(Claims(CandidatesOf(parse, sources)), d)
  }

  ghost predicate Clean(publication: ParsedPublication, parse: Parser, sources: seq<Source>) {
    forall d :: !Reported(publication, parse, sources, d)
  }

  /** A candidate without a document although nothing was reported. */
  ghost predicate Broken(publication: ParsedPublication, parse: Parser, sources: seq<Source>, d: Diagnostic) {
    || (publication.settings.None? && d == InvariantError(publication.path))
    || exists i :: 0 <= i < |sources| && parse(sources[i]).document.None? && d == InvariantError(sources[i].path)
  }

  ghost predicate Whole(publication: ParsedPublication, parse: Parser, sources: seq<Source>) {
    publication.settings.Some? && forall i | 0 <= i < |sources| :: parse(sources[i]).document.Some?
  }

  ghost predicate Lists(errors: seq<Diagnostic>, reported: Diagnostic -> bool) {
    StrictlyIncreasing(DiagnosticKey, errors) && forall d :: d in errors <==> reported(d)
  }

  /** The outcome for sources in path order. */
  ghost predicate OutcomeOfSorted(publication: ParsedPublication, parse: Parser, sources: seq<Source>, r: Validation) {
    if !Clean(publication, parse, sources) then
      r.Invalid? && Lists(r.errors, d => Reported(publication, parse, sources, d))
    else if !Whole(publication, parse, sources) then
      r.Invalid? && Lists(r.errors, d => Broken(publication, parse, sources, d))
    else
      && r.Valid? && r.publication == publication.settings.value && |r.posts| == |sources|
      && forall i | 0 <= i < |sources| :: r.posts[i] == parse(sources[i]).document.value
  }

  function InPathOrder(sources: seq<Source>): seq<Source> {
    Sort(ByKey(SourcePath), sources)
  }

  ghost predicate IsOutcome(publication: ParsedPublication, parse: Parser, sources: seq<Source>, r: Validation) {
    OutcomeOfSorted(publication, parse, InPathOrder(sources), r)
  }

  method PushAll(errors: seq<Diagnostic>, diagnostics: DiagnosticCollector)
    modifies diagnostics
    ensures diagnostics.errors == old(diagnostics.errors) + errors
  {
    for i := 0 to |errors|
      invariant diagnostics.errors == old(diagnostics.errors) + errors[..i]
    {
      diagnostics.Push(errors[i]);
    }
    assert errors[..|errors|] == errors;
  }

  method ParsePosts(parse: Parser, sources: seq<Source>, diagnostics: DiagnosticCollector) returns (cs: seq<Candidate>)
    modifies diagnostics
    ensures cs == CandidatesOf(parse, sources)
    ensures forall d :: d in diagnostics.errors <==> d in old(diagnostics.errors) || ParserReported(parse, sources, d)
  {
    cs := [];
    for i := 0 to |sources|
      invariant |cs| == i && forall k | 0 <= k < i :: cs[k] == CandidateOf(parse, k, sources[k])
      invariant forall d ::
                  d in diagnostics.errors <==> d in old(diagnostics.errors) || ParserReported(parse, sources[..i], d)
    {
      PushAll(parse(sources[i]).errors, diagnostics);
      cs := cs + [CandidateOf(parse, i, sources[i])];
      forall d ensures ParserReported(parse, sources[..i + 1], d) <==>
                       ParserReported(parse, sources[..i], d) || d in parse(sources[i]).errors
      {
        ParserReportedStep(parse, sources, i, d);
      }
    }
    assert sources[..|sources|] == sources;
  }

  lemma ParserReportedStep(parse: Parser, sources: seq<Source>, i: nat, d: Diagnostic)
    requires i < |sources|
    ensures ParserReported(parse, sources[..i + 1], d) <==>
            ParserReported(parse, sources[..i], d) || d in parse(sources[i]).errors
  {
    var more, less := sources[..i + 1], sources[..i];
    if ParserReported(parse, less, d) {
      var k :| 0 <= k < |less| && d in parse(less[k]).errors;
      assert more[k] == less[k];
    }
    if d in parse(sources[i]).errors {
      assert more[i] == sources[i];
    }
    if ParserReported(parse, more, d) {
      var k :| 0 <= k < |more| && d in parse(more[k]).errors;
      assert k < i ==> less[k] == more[k];
    }
  }

  /** Collects every diagnostic of the tree. */
  method Diagnose(publication: ParsedPublication, parse: Parser, sources: seq<Source>, diagnostics: DiagnosticCollector)
    returns (cs: seq<Candidate>)
    requires diagnostics.errors == []
    modifies diagnostics
    ensures cs == CandidatesOf(parse, sources)
    ensures forall d :: d in diagnostics.errors <==> Reported(publication, parse, sources, d)
  {
    PushAll(publication.errors, diagnostics);
    assert [] + publication.errors == publication.errors;
    cs := ParsePosts(parse, sources, diagnostics);
    ValidatePostIdentities(cs, diagnostics);
    ValidatePostRoutes(cs, diagnostics);
  }

  /** Reports what is missing although nothing was reported. */
  method RequireDocuments(publication: ParsedPublication, parse: Parser, ghost sources: seq<Source>, cs: seq<Candidate>,
                          diagnostics: DiagnosticCollector)
    requires diagnostics.errors == [] && cs == CandidatesOf(parse, sources)
    modifies diagnostics
    ensures forall d :: d in diagnostics.errors <==> Broken(publication, parse, sources, d)
  {
    if publication.settings.None? {
      diagnostics.Push(InvariantError(publication.path));
    }
    for i := 0 to |cs|
      invariant forall d :: d in diagnostics.errors <==>
                  || (publication.settings.None? && d == InvariantError(publication.path))
                  || exists k :: 0 <= k < i && parse(sources[k]).document.None? && d == InvariantError(sources[k].path)
    {
      if cs[i].document.None? {
        diagnostics.Push(InvariantError(cs[i].path));
      }
    }
  }

  method ValidateContent(publication: ParsedPublication, parse: Parser, sources: seq<Source>) returns (r: Validation)
    ensures IsOutcome(publication, parse, sources, r)
  {
    var diagnostics := new DiagnosticCollector();
    var sorted := InPathOrder(sources);
    var cs := Diagnose(publication, parse, sorted, diagnostics);
    if diagnostics.errors != [] {
      assert Reported(publication, parse, sorted, diagnostics.errors[0]);
      var errors := diagnostics.Finish();
      return Invalid(errors);
    }
    assert Clean(publication, parse, sorted);
    RequireDocuments(publication, parse, sorted, cs, diagnostics);
    if diagnostics.errors != [] {
      assert diagnostics.errors[0] in diagnostics.errors;
      var errors := diagnostics.Finish();
      return Invalid(errors);
    }
    assert publication.settings.None? ==> Broken(publication, parse, sorted, InvariantError(publication.path));
    assert forall i | 0 <= i < |sorted| && parse(sorted[i]).document.None? ::
        Broken(publication, parse, sorted, InvariantError(sorted[i].path));
    var posts := TakeDocuments(cs);
    return Valid(publication.settings.value, posts);
  }

  method TakeDocuments(cs: seq<Candidate>) returns (posts: seq<PostDocument>)
    requires forall i | 0 <= i < |cs| :: cs[i].document.Some?
    ensures |posts| == |cs| && forall i | 0 <= i < |cs| :: posts[i] == cs[i].document.value
  {
    posts := [];
    for i := 0 to |cs|
      invariant |posts| == i && forall k | 0 <= k < i :: posts[k] == cs[k].document.value
    {
      posts := posts + [cs[i].document.value];
    }
  }

  // What validation guarantees.

  lemma ListsIsUnique(left: seq<Diagnostic>, right: seq<Diagnostic>, reported: Diagnostic -> bool)
    requires Lists(left, reported) && Lists(right, reported)
    ensures left == right
  {
    DiagnosticKeysIdentify();
    IncreasingIsDetermined(DiagnosticKey, left, right);
  }

  lemma OutcomeIsUnique(publication: ParsedPublication, parse: Parser, sources: seq<Source>, left: Validation,
                        right: Validation)
    requires OutcomeOfSorted(publication, parse, sources, left) && OutcomeOfSorted(publication, parse, sources, right)
    ensures left == right
  {
    if !Clean(publication, parse, sources) {
      ListsIsUnique(left.errors, right.errors, d => Reported(publication, parse, sources, d));
    } else if !Whole(publication, parse, sources) {
      ListsIsUnique(left.errors, right.errors, d => Broken(publication, parse, sources, d));
    } else {
      assert left.posts == right.posts;
    }
  }

  /** Sources with distinct paths may come in any order: same posts, or the same diagnostics. */
  lemma ValidationForgetsOrder(publication: ParsedPublication, parse: Parser, sources: seq<Source>,
                               permuted: seq<Source>, left: Validation, right: Validation)
    requires DistinctKeys(SourcePath, sources) && multiset(sources) == multiset(permuted)
    requires IsOutcome(publication, parse, sources, left) && IsOutcome(publication, parse, permuted, right)
    ensures left == right
    ensures left.Invalid? ==> StrictlyIncreasing(DiagnosticKey, left.errors)
  {
    ByKeyIsTotal(SourcePath);
    DistinctKeysDiscriminate(SourcePath, sources);
    SortIsCanonical(ByKey(SourcePath), sources, permuted);
    OutcomeIsUnique(publication, parse, InPathOrder(sources), left, right);
  }

  /** The candidates of sources with distinct paths have distinct paths. */
  lemma CandidatePathsAreDistinct(parse: Parser, sources: seq<Source>)
    requires DistinctKeys(SourcePath, sources)
    ensures DistinctPaths(CandidatesOf(parse, InPathOrder(sources)))
  {
    var sorted := InPathOrder(sources);
    SortPermutes(ByKey(SourcePath), sources);
    MapPermutes(SourcePath, sources, sorted);
    DistinctIsPermutationInvariant(Map(SourcePath, sources), Map(SourcePath, sorted));
    var paths, cs := Map(SourcePath, sorted), CandidatesOf(parse, sorted);
    forall i, j | 0 <= i < j < |cs| ensures cs[i].path != cs[j].path {
      assert paths[i] != paths[j];
    }
  }

  /** A reported diagnostic makes the outcome invalid and is delivered. */
  lemma ReportsAreDelivered(publication: ParsedPublication, parse: Parser, sources: seq<Source>, r: Validation,
                            d: Diagnostic)
    requires IsOutcome(publication, parse, sources, r) && Reported(publication, parse, InPathOrder(sources), d)
    ensures r.Invalid? && d in r.errors
  {
  }

  /** In the delivered list, a route that n posts and aliases claim has exactly n - 1 reports. */
  lemma DeliveredRouteReports(publication: ParsedPublication, parse: Parser, sources: seq<Source>, r: Validation,
                              route: Bytes)
    requires IsOutcome(publication, parse, sources, r) && DistinctKeys(SourcePath, sources)
    requires forall c | c in CandidatesOf(parse, InPathOrder(sources)) :: DistinctIndexes(c)
    requires |Group(Claims(CandidatesOf(parse, InPathOrder(sources))), route)| >= 2
    ensures r.Invalid?
    ensures var group := Group(Claims(CandidatesOf(parse, InPathOrder(sources))), route);
            |set d | d in r.errors && d in GroupReports(group)| == |group| - 1
  {
    var cs := CandidatesOf(parse, InPathOrder(sources));
    var reports := GroupReports(Group(Claims(cs), route));
    CandidatePathsAreDistinct(parse, sources);
    RouteReportCount(Claims(cs), route);
    RouteReportsAreDistinct(cs, route);
    DistinctCardinality(reports);
    assert reports[0] in reports;
    forall d | d in reports ensures r.Invalid? && d in r.errors {
      assert IsRouteReport(Claims(cs), d);
      ReportsAreDelivered(publication, parse, sources, r, d);
    }
    assert (set d | d in r.errors && d in reports) == set d | d in reports;
  }

  /** In the delivered list, an identity that n posts claim has exactly n - 1 reports against the
      first of them. */
  lemma DeliveredIdentityReports(publication: ParsedPublication, parse: Parser, sources: seq<Source>, r: Validation,
                                 id: Bytes)
    requires IsOutcome(publication, parse, sources, r) && DistinctKeys(SourcePath, sources)
    requires Claimants(CandidatesOf(parse, InPathOrder(sources)), id) >= 2
    ensures r.Invalid?
    ensures var cs := CandidatesOf(parse, InPathOrder(sources));
            && FirstWith(cs, id).Some?
            && |set d | d in r.errors && d in AnchoredAt(IdentityReports(cs), FirstWith(cs, id).value.path)|
               == Claimants(cs, id) - 1
  {
    var cs := CandidatesOf(parse, InPathOrder(sources));
    CandidatePathsAreDistinct(parse, sources);
    IdentityReportCount(cs, id);
    IdentityReportsAreDistinct(cs);
    var anchored := AnchoredAt(IdentityReports(cs), FirstWith(cs, id).value.path);
    ReportsAgainstIsCardinality(IdentityReports(cs), FirstWith(cs, id).value.path);
    var some :| some in anchored;
    forall d | d in anchored ensures r.Invalid? && d in r.errors {
      assert Reported(publication, parse, InPathOrder(sources), d);
      ReportsAreDelivered(publication, parse, sources, r, d);
    }
    assert some in r.errors;
    assert (set d | d in r.errors && d in anchored) == anchored;
  }

  /** The parser's own promise: a document exactly when nothing is reported, holding the typed fields. */
  ghost predicate Faithful(parse: Parser) {
    forall source ::
      && (parse(source).document.Some? <==> parse(source).errors == [])
      && (parse(source).document.Some? ==>
            && parse(source).id == Some(parse(source).document.value.id)
            && parse(source).slug == Some(parse(source).document.value.slug)
            && parse(source).document.value.aliases == Map(Second, parse(source).aliases))
  }

  function Second(pair: (nat, Bytes)): Bytes {
    pair.1
  }

  function RouteOf(claim: Claim): Bytes {
    claim.route
  }

  /** All routes of the documents: the slug, then the aliases, post by post. */
  function RoutesOf(posts: seq<PostDocument>): seq<Bytes> {
    if posts == [] then []
    else RoutesOf(posts[..|posts| - 1]) + ([posts[|posts| - 1].slug] + posts[|posts| - 1].aliases)
  }

  lemma {:induction false} RoutesWithAliases(before: seq<Claim>, c: Candidate, k: nat)
    requires k <= |c.aliases|
    ensures Map(RouteOf, WithAliases(before, c, k)) == Map(RouteOf, before) + Map(Second, c.aliases)[..k]
  {
    if k > 0 {
      RoutesWithAliases(before, c, k - 1);
      MapAppend(RouteOf, WithAliases(before, c, k - 1), AliasClaim(c, k - 1));
      assert Map(Second, c.aliases)[..k] == Map(Second, c.aliases)[..k - 1] + [c.aliases[k - 1].1];
    }
  }

  lemma {:induction false} ClaimedRoutes(cs: seq<Candidate>, posts: seq<PostDocument>)
    requires |cs| == |posts|
    requires forall i | 0 <= i < |cs| ::
               cs[i].slug == Some(posts[i].slug) && posts[i].aliases == Map(Second, cs[i].aliases)
    ensures Map(RouteOf, Claims(cs)) == RoutesOf(posts)
  {
    if cs != [] {
      var n := |cs| - 1;
      ClaimedRoutes(cs[..n], posts[..n]);
      RoutesOfOnePost(Claims(cs[..n]), cs[n], posts[n]);
    }
  }

  lemma RoutesOfOnePost(before: seq<Claim>, c: Candidate, post: PostDocument)
    requires c.slug == Some(post.slug) && post.aliases == Map(Second, c.aliases)
    ensures Map(RouteOf, WithAliases(before + SlugClaims(c), c, |c.aliases|))
            == Map(RouteOf, before) + ([post.slug] + post.aliases)
  {
    RoutesWithAliases(before + SlugClaims(c), c, |c.aliases|);
    MapAppend(RouteOf, before, SlugClaims(c)[0]);
    assert Map(Second, c.aliases)[..|c.aliases|] == post.aliases;
    assert (Map(RouteOf, before) + [post.slug]) + post.aliases == Map(RouteOf, before) + ([post.slug] + post.aliases);
  }

  /** A tree is valid exactly when its publication and every post parse without a diagnostic, no
      two posts share an identity, and no slug or alias occurs twice in the whole tree. */
  lemma ValidExactlyWhenConflictFree(publication: ParsedPublication, parse: Parser, sources: seq<Source>, r: Validation)
    requires Faithful(parse) && (publication.settings.Some? <==> publication.errors == [])
    requires IsOutcome(publication, parse, sources, r)
    ensures r.Valid? <==>
            && publication.errors == [] && (forall source | source in sources :: parse(source).errors == [])
            && DistinctIds(CandidatesOf(parse, InPathOrder(sources)))
            && DistinctRoutes(Claims(CandidatesOf(parse, InPathOrder(sources))))
  {
    var sorted := InPathOrder(sources);
    var cs := CandidatesOf(parse, sorted);
    SortPermutes(ByKey(SourcePath), sources);
    SilentParsers(parse, sorted);
    assert (forall source | source in sorted :: parse(source).errors == [])
      <==> (forall source | source in sources :: parse(source).errors == []);
    NoIdentityReports(cs);
    NoRouteReports(Claims(cs));
    CleanMeaning(publication, parse, sorted);
    if Silent(publication, parse, sorted) {
      SilentIsWhole(publication, parse, sorted);
    }
  }

  lemma SilentIsWhole(publication: ParsedPublication, parse: Parser, sources: seq<Source>)
    requires Faithful(parse) && (publication.settings.Some? <==> publication.errors == [])
    requires Silent(publication, parse, sources)
    ensures Whole(publication, parse, sources)
  {
    forall i | 0 <= i < |sources| ensures parse(sources[i]).document.Some? {
      assert parse(sources[i]).errors == [];
    }
  }

  lemma SilentParsers(parse: Parser, sources: seq<Source>)
    ensures (forall i | 0 <= i < |sources| :: parse(sources[i]).errors == [])
       <==> (forall source | source in sources :: parse(source).errors == [])
  {
    if forall source | source in sources :: parse(source).errors == [] {
      forall i | 0 <= i < |sources| ensures parse(sources[i]).errors == [] {
        assert sources[i] in sources;
      }
    }
  }

  /** No parser, no identity check and no route check reports anything. */
  ghost predicate Silent(publication: ParsedPublication, parse: Parser, sources: seq<Source>) {
    && publication.errors == [] && (forall i | 0 <= i < |sources| :: parse(sources[i]).errors == [])
    && IdentityReports(CandidatesOf(parse, sources)) == []
    && forall d :: !IsRouteReport(Claims(CandidatesOf(parse, sources)), d)
  }

  lemma CleanMeaning(publication: ParsedPublication, parse: Parser, sources: seq<Source>)
    ensures Clean(publication, parse, sources) <==> Silent(publication, parse, sources)
  {
    if Clean(publication, parse, sources) {
      CleanIsSilent(publication, parse, sources);
    }
    if Silent(publication, parse, sources) {
      SilentIsClean(publication, parse, sources);
    }
  }

  lemma SilentIsClean(publication: ParsedPublication, parse: Parser, sources: seq<Source>)
    requires Silent(publication, parse, sources)
    ensures Clean(publication, parse, sources)
  {
    forall d ensures !Reported(publication, parse, sources, d) {
      assert !IsRouteReport(Claims(CandidatesOf(parse, sources)), d);
      assert !ParserReported(parse, sources, d);
    }
  }

  lemma CleanIsSilent(publication: ParsedPublication, parse: Parser, sources: seq<Source>)
    requires Clean(publication, parse, sources)
    ensures Silent(publication, parse, sources)
  {
    var reports := IdentityReports(CandidatesOf(parse, sources));
    assert publication.errors != [] ==> Reported(publication, parse, sources, publication.errors[0]);
    assert reports != [] ==> Reported(publication, parse, sources, reports[0]);
    forall i | 0 <= i < |sources| ensures parse(sources[i]).errors == [] {
      assert parse(sources[i]).errors != [] ==> ParserReported(parse, sources, parse(sources[i]).errors[0]);
      assert parse(sources[i]).errors != [] ==> Reported(publication, parse, sources, parse(sources[i]).errors[0]);
    }
    forall d ensures !IsRouteReport(Claims(CandidatesOf(parse, sources)), d) {
      assert !Reported(publication, parse, sources, d);
    }
  }

  /** In validated content all identities are pairwise distinct, and so are all slugs and aliases. */
  lemma ValidContentIsConflictFree(publication: ParsedPublication, parse: Parser, sources: seq<Source>, r: Validation)
    requires Faithful(parse) && IsOutcome(publication, parse, sources, r) && r.Valid?
    ensures forall i, j | 0 <= i < j < |r.posts| :: r.posts[i].id != r.posts[j].id
    ensures Distinct(RoutesOf(r.posts))
  {
    var sorted := InPathOrder(sources);
    var cs := CandidatesOf(parse, sorted);
    CleanMeaning(publication, parse, sorted);
    NoIdentityReports(cs);
    NoRouteReports(Claims(cs));
    forall i, j | 0 <= i < j < |r.posts| ensures r.posts[i].id != r.posts[j].id {
      assert cs[i].id == Some(r.posts[i].id) && cs[j].id == Some(r.posts[j].id);
    }
    ClaimedRoutes(cs, r.posts);
    var routes := Map(RouteOf, Claims(cs));
    assert forall i, j | 0 <= i < j < |routes| :: routes[i] != routes[j];
  }
}
