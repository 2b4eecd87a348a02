/** Post identities and routes across a whole content tree: who claims what, and which claims conflict. */
module RouteClaims {
  import opened Framing
  import opened Ordering
  import opened Content
  import opened Diagnostics
  import opened Documents
  import opened ValidationDiagnostics

  datatype Candidate = Candidate(
    index: nat,
    path: Bytes,
    id: Option<Bytes>,
    slug: Option<Bytes>,
    aliases: seq<(nat, Bytes)>,
    document: Option<PostDocument>)

  // Identities.

  /** The first candidate with an identity. */
  function FirstWith(cs: seq<Candidate>, id: Bytes): Option<Candidate> {
    if cs == [] then None
    else if FirstWith(cs[..|cs| - 1], id).Some? then FirstWith(cs[..|cs| - 1], id)
    else if cs[|cs| - 1].id == Some(id) then Some(cs[|cs| - 1])
    else None
  }

  function IdentityReport(anchor: Candidate, duplicate: Candidate): Diagnostic {
    Diagnostic(duplicate.path, Ascii("id"), DUPLICATE_POST_ID, [], Some(Place(anchor.path, Ascii("id"))))
  }

  /** One report for every candidate whose identity an earlier one has, against the first that has it. */
  function IdentityReports(cs: seq<Candidate>): seq<Diagnostic> {
    if cs == [] then []
    else
      var before, last := cs[..|cs| - 1], cs[|cs| - 1];
      if last.id.None? || FirstWith(before, last.id.value).None? then IdentityReports(before)
      else IdentityReports(before) + [IdentityReport(FirstWith(before, last.id.value).value, last)]
  }

  method ValidatePostIdentities(cs: seq<Candidate>, diagnostics: DiagnosticCollector)
    modifies diagnostics
    ensures diagnostics.errors == old(diagnostics.errors) + IdentityReports(cs)
  {
    var identities: map<Bytes, Candidate> := map[];
    assert cs[..0] == [];
    for i := 0 to |cs|
      invariant diagnostics.errors == old(diagnostics.errors) + IdentityReports(cs[..i])
      invariant forall id :: id in identities <==> FirstWith(cs[..i], id).Some?
      invariant forall id | id in identities :: FirstWith(cs[..i], id).value == identities[id]
    {
      var post := cs[i];
      assert cs[..i + 1][..i] == cs[..i];
      if post.id.None? {
        continue;
      }
      if post.id.value !in identities {
        identities := identities[post.id.value := post];
        continue;
      }
      diagnostics.Push(IdentityReport(identities[post.id.value], post));
    }
    assert cs[..|cs|] == cs;
  }

  ghost predicate DistinctIds(cs: seq<Candidate>) {
    forall i, j | 0 <= i < j < |cs| && cs[i].id.Some? && cs[j].id.Some? :: cs[i].id != cs[j].id
  }

  lemma {:induction false} FirstWithFinds(cs: seq<Candidate>, id: Bytes)
    ensures FirstWith(cs, id).Some? <==> exists i :: 0 <= i < |cs| && cs[i].id == Some(id)
    ensures FirstWith(cs, id).Some? ==> exists i ::
              && 0 <= i < |cs| && cs[i] == FirstWith(cs, id).value && cs[i].id == Some(id)
              && forall k | 0 <= k < i :: cs[k].id != Some(id)
  {
    if cs != [] {
      var before := cs[..|cs| - 1];
      FirstWithFinds(before, id);
      assert forall i | 0 <= i < |before| :: before[i] == cs[i];
      if FirstWith(before, id).None? && cs[|cs| - 1].id == Some(id) {
        assert cs[|cs| - 1] == FirstWith(cs, id).value;
      }
    }
  }

  /** Identities are pairwise distinct exactly when nothing is reported. */
  lemma {:induction false} NoIdentityReports(cs: seq<Candidate>)
    ensures IdentityReports(cs) == [] <==> DistinctIds(cs)
  {
    if cs != [] {
      var before, last := cs[..|cs| - 1], cs[|cs| - 1];
      NoIdentityReports(before);
      if last.id.Some? {
        FirstWithFinds(before, last.id.value);
      }
      if DistinctIds(cs) {
        assert DistinctIds(before);
        assert forall i | 0 <= i < |before| && before[i].id.Some? && last.id.Some? :: cs[i].id != cs[|cs| - 1].id;
      }
      if DistinctIds(before) && (last.id.None? || FirstWith(before, last.id.value).None?) {
        forall i, j | 0 <= i < j < |cs| && cs[i].id.Some? && cs[j].id.Some? ensures cs[i].id != cs[j].id {
          assert before[i] == cs[i];
          if j < |before| {
            assert before[j] == cs[j];
          }
        }
      }
    }
  }

  function Claimants(cs: seq<Candidate>, id: Bytes): nat {
    if cs == [] then 0 else Claimants(cs[..|cs| - 1], id) + if cs[|cs| - 1].id == Some(id) then 1 else 0
  }

  /** The reports against a given first claimant. */
  function ReportsAgainst(reports: seq<Diagnostic>, path: Bytes): nat {
    if reports == [] then 0
    else
      var last := reports[|reports| - 1];
      ReportsAgainst(reports[..|reports| - 1], path) + if last.related == Some(Place(path, Ascii("id"))) then 1 else 0
  }

  lemma ReportsAgainstOneMore(reports: seq<Diagnostic>, report: Diagnostic, path: Bytes)
    ensures ReportsAgainst(reports + [report], path) ==
            ReportsAgainst(reports, path) + if report.related == Some(Place(path, Ascii("id"))) then 1 else 0
  {
    assert (reports + [report])[..|reports|] == reports;
  }

  ghost predicate DistinctPaths(cs: seq<Candidate>) {
    forall i, j | 0 <= i < j < |cs| :: cs[i].path != cs[j].path
  }

  lemma FirstWithIsMember(cs: seq<Candidate>, id: Bytes) returns (i: nat)
    requires FirstWith(cs, id).Some?
    ensures i < |cs| && cs[i] == FirstWith(cs, id).value && cs[i].id == Some(id)
  {
    FirstWithFinds(cs, id);
    i :| 0 <= i < |cs| && cs[i] == FirstWith(cs, id).value && cs[i].id == Some(id);
  }

  /** First claimants of different identities are different candidates. */
  lemma AnchorsDiffer(cs: seq<Candidate>, left: Bytes, right: Bytes)
    requires DistinctPaths(cs) && left != right && FirstWith(cs, left).Some? && FirstWith(cs, right).Some?
    ensures FirstWith(cs, left).value.path != FirstWith(cs, right).value.path
  {
    var i := FirstWithIsMember(cs, left);
    var j := FirstWithIsMember(cs, right);
    assert i != j;
  }

  lemma {:induction false} NoReportsAgainstStrangers(cs: seq<Candidate>, path: Bytes)
    requires forall i | 0 <= i < |cs| :: cs[i].path != path
    ensures ReportsAgainst(IdentityReports(cs), path) == 0
  {
    if cs != [] {
      var before, last := cs[..|cs| - 1], cs[|cs| - 1];
      NoReportsAgainstStrangers(before, path);
      if last.id.Some? && FirstWith(before, last.id.value).Some? {
        var anchor := FirstWithIsMember(before, last.id.value);
        ReportsAgainstOneMore(IdentityReports(before), IdentityReport(before[anchor], last), path);
      }
    }
  }

  lemma {:induction false} ClaimedExactlyWhenFound(cs: seq<Candidate>, id: Bytes)
    ensures FirstWith(cs, id).Some? <==> Claimants(cs, id) > 0
  {
    if cs != [] {
      ClaimedExactlyWhenFound(cs[..|cs| - 1], id);
    }
  }

  /** Among candidates with distinct paths, an identity claimed n times is reported n - 1 times
      against its first claimant. */
  lemma {:induction false} IdentityReportCount(cs: seq<Candidate>, id: Bytes)
    requires DistinctPaths(cs) && Claimants(cs, id) > 0
    ensures FirstWith(cs, id).Some?
    ensures ReportsAgainst(IdentityReports(cs), FirstWith(cs, id).value.path) == Claimants(cs, id) - 1
  {
    ClaimedExactlyWhenFound(cs, id);
    var before, last := cs[..|cs| - 1], cs[|cs| - 1];
    ClaimedExactlyWhenFound(before, id);
    if Claimants(before, id) == 0 {
      NoReportsAgainstStrangers(before, last.path);
    } else {
      IdentityReportCount(before, id);
      if last.id.Some? && FirstWith(before, last.id.value).Some? {
        var anchor := FirstWith(before, last.id.value).value;
        ReportsAgainstOneMore(IdentityReports(before), IdentityReport(anchor, last), FirstWith(before, id).value.path);
        if last.id != Some(id) {
          AnchorsDiffer(before, id, last.id.value);
        }
      }
    }
  }

  lemma {:induction false} IdentityReportPaths(cs: seq<Candidate>)
    ensures forall d | d in IdentityReports(cs) :: exists i :: 0 <= i < |cs| && cs[i].path == d.path
  {
    if cs != [] {
      var n := |cs| - 1;
      IdentityReportPaths(cs[..n]);
      forall d | d in IdentityReports(cs) ensures exists i :: 0 <= i < |cs| && cs[i].path == d.path {
        if d in IdentityReports(cs[..n]) {
          var i :| 0 <= i < n && cs[..n][i].path == d.path;
          assert cs[i].path == d.path;
        } else {
          assert cs[n].path == d.path;
        }
      }
    }
  }

  /** Among candidates with distinct paths no identity report is repeated. */
  lemma {:induction false} IdentityReportsAreDistinct(cs: seq<Candidate>)
    requires DistinctPaths(cs)
    ensures Distinct(IdentityReports(cs))
  {
    if cs != [] {
      var before, last := cs[..|cs| - 1], cs[|cs| - 1];
      IdentityReportsAreDistinct(before);
      IdentityReportPaths(before);
      forall d | d in IdentityReports(before) ensures d.path != last.path {
        var i :| 0 <= i < |before| && before[i].path == d.path;
        assert cs[i].path != cs[|before|].path;
      }
    }
  }

  /** The diagnostics among some reports that are against a given first claimant. */
  ghost function AnchoredAt(reports: seq<Diagnostic>, path: Bytes): set<Diagnostic> {
    set d | d in reports && d.related == Some(Place(path, Ascii("id")))
  }

  lemma {:induction false} ReportsAgainstIsCardinality(reports: seq<Diagnostic>, path: Bytes)
    requires Distinct(reports)
    ensures |AnchoredAt(reports, path)| == ReportsAgainst(reports, path)
  {
    if reports != [] {
      var before, last := reports[..|reports| - 1], reports[|reports| - 1];
      ReportsAgainstIsCardinality(before, path);
      assert reports == before + [last];
      assert last !in before;
      var against := if last.related == Some(Place(path, Ascii("id"))) then {last} else {};
      assert AnchoredAt(reports, path) == AnchoredAt(before, path) + against;
    }
  }

  function Identities(cs: seq<Candidate>): set<Bytes> {
    set i | 0 <= i < |cs| && cs[i].id.Some? :: cs[i].id.value
  }

  function Identified(cs: seq<Candidate>): nat {
    if cs == [] then 0 else Identified(cs[..|cs| - 1]) + if cs[|cs| - 1].id.Some? then 1 else 0
  }

  lemma IdentitiesOneMore(cs: seq<Candidate>)
    requires cs != []
    ensures var before, last := cs[..|cs| - 1], cs[|cs| - 1];
            && Identities(cs) == Identities(before) + (if last.id.Some? then {last.id.value} else {})
            && (last.id.Some? ==> (last.id.value in Identities(before) <==> FirstWith(before, last.id.value).Some?))
  {
    var before, last := cs[..|cs| - 1], cs[|cs| - 1];
    assert forall i | 0 <= i < |before| :: before[i] == cs[i];
    if last.id.Some? {
      FirstWithFinds(before, last.id.value);
    }
    forall id ensures id in Identities(cs) <==> id in Identities(before) || last.id == Some(id) {
      if id in Identities(before) {
        var i :| 0 <= i < |before| && before[i].id == Some(id);
        assert cs[i].id == Some(id);
      }
    }
  }

  /** In all there are as many reports as claims of an identity beyond the first. */
  lemma {:induction false} IdentityReportTotal(cs: seq<Candidate>)
    ensures |IdentityReports(cs)| + |Identities(cs)| == Identified(cs)
  {
    if cs != [] {
      var before, last := cs[..|cs| - 1], cs[|cs| - 1];
      IdentityReportTotal(before);
      IdentitiesOneMore(cs);
      if last.id.Some? && last.id.value in Identities(before) {
        assert Identities(cs) == Identities(before);
      }
      if last.id.None? {
        assert Identities(cs) == Identities(before);
      }
    }
  }

  // Routes.

  datatype RouteKind = Canonical | Alias

  datatype Claim = Claim(route: Bytes, path: Bytes, index: nat, kind: RouteKind, field: Bytes)

  function Digit(n: nat): u8
    requires n < 10
  {
    48 + n
  }

  function Decimal(n: nat): Bytes {
    if n < 10 then [Digit(n)] else Decimal(n / 10) + [Digit(n % 10)]
  }

  function AliasField(index: nat): Bytes {
    Ascii("aliases[") + Decimal(index) + [93]
  }

  function AliasClaim(c: Candidate, k: nat): Claim
    requires k < |c.aliases|
  {
    Claim(c.aliases[k].1, c.path, c.index, Alias, AliasField(c.aliases[k].0))
  }

  function SlugClaims(c: Candidate): seq<Claim> {
    if c.slug.Some? then [Claim(c.slug.value, c.path, c.index, Canonical, Ascii("slug"))] else []
  }

  /** The claims `before` followed by the first `k` alias claims of a post. */
  function WithAliases(before: seq<Claim>, c: Candidate, k: nat): seq<Claim>
    requires k <= |c.aliases|
  {
    if k == 0 then before else WithAliases(before, c, k - 1) + [AliasClaim(c, k - 1)]
  }

  /** Every route claim of the candidates, slugs before aliases within a post. */
  function Claims(cs: seq<Candidate>): seq<Claim> {
    if cs == [] then []
    else
      var last := cs[|cs| - 1];
      WithAliases(Claims(cs[..|cs| - 1]) + SlugClaims(last), last, |last.aliases|)
  }

  function KindRank(kind: RouteKind): nat {
    if kind.Canonical? then 0 else 1
  }

  function ClaimKey(claim: Claim): Key {
    [Text(claim.path), Num(claim.index), Num(KindRank(claim.kind)), Text(claim.field)]
  }

  function Group(claims: seq<Claim>, route: Bytes): seq<Claim> {
    if claims == [] then []
    else
      var last := claims[|claims| - 1];
      Group(claims[..|claims| - 1], route) + if last.route == route then [last] else []
  }

  function ConflictCode(anchor: Claim, duplicate: Claim): nat {
    if anchor.kind.Canonical? && duplicate.kind.Canonical? then DUPLICATE_POST_SLUG
    else if anchor.kind.Alias? && duplicate.kind.Alias? then DUPLICATE_POST_ALIAS
    else if anchor.index == duplicate.index then ALIAS_MATCHES_SLUG
    else DUPLICATE_POST_ROUTE
  }

  function RouteReport(anchor: Claim, duplicate: Claim): Diagnostic {
    Diagnostic(duplicate.path, duplicate.field, ConflictCode(anchor, duplicate), [],
               Some(Place(anchor.path, anchor.field)))
  }

  function Against(anchor: Claim): Claim -> Diagnostic {
    duplicate => RouteReport(anchor, duplicate)
  }

  /** A route's reports: the claims after the least one, each against the least one. */
  function GroupReports(group: seq<Claim>): seq<Diagnostic> {
    var sorted := Sort(Keyed(ClaimKey), group);
    if |group| <= 1 || sorted == [] then [] else Map(Against(sorted[0]), sorted[1..])
  }

  ghost predicate IsRouteReport(claims: seq<Claim>, d: Diagnostic) {
    exists route :: d in GroupReports(Group(claims, route))
  }

  lemma {:induction false} GroupMembers(claims: seq<Claim>, route: Bytes)
    ensures forall claim :: claim in Group(claims, route) <==> claim in claims && claim.route == route
  {
    if claims != [] {
      GroupMembers(claims[..|claims| - 1], route);
      assert claims == claims[..|claims| - 1] + [claims[|claims| - 1]];
    }
  }

  lemma ClaimOrder()
    ensures TotalPreorder(Keyed(ClaimKey))
  {
    KeyedIsTotal(ClaimKey);
  }

  /** `anchor` comes first among the group's claims. */
  ghost predicate Least(group: seq<Claim>, anchor: Claim) {
    anchor in group && forall claim | claim in group :: KeyLeq(ClaimKey(anchor), ClaimKey(claim))
  }

  /** The diagnostic reports a member of the group against the group's least member. */
  ghost predicate AgainstLeast(group: seq<Claim>, d: Diagnostic) {
    exists anchor, duplicate :: Least(group, anchor) && duplicate in group && d == RouteReport(anchor, duplicate)
  }

  lemma AnchorIsLeast(group: seq<Claim>)
    requires group != []
    ensures Sort(Keyed(ClaimKey), group) != [] && Least(group, Sort(Keyed(ClaimKey), group)[0])
  {
    var sorted := Sort(Keyed(ClaimKey), group);
    ClaimOrder();
    SortPermutes(Keyed(ClaimKey), group);
    SortSorts(Keyed(ClaimKey), group);
    assert sorted[0] in sorted;
    forall claim | claim in group ensures KeyLeq(ClaimKey(sorted[0]), ClaimKey(claim)) {
      assert claim in sorted;
      var k :| 0 <= k < |sorted| && sorted[k] == claim;
      KeyTotal(ClaimKey(claim), ClaimKey(claim));
      assert k > 0 ==> Keyed(ClaimKey)(sorted[0], sorted[k]);
    }
  }

  lemma ReportIsAgainstLeast(group: seq<Claim>, d: Diagnostic)
    requires d in GroupReports(group)
    ensures AgainstLeast(group, d)
  {
    var sorted := Sort(Keyed(ClaimKey), group);
    AnchorIsLeast(group);
    SortPermutes(Keyed(ClaimKey), group);
    var k :| 0 <= k < |sorted| - 1 && GroupReports(group)[k] == d;
    assert sorted[k + 1] in sorted;
    assert d == RouteReport(sorted[0], sorted[k + 1]);
  }

  /** A route claimed n times is reported n - 1 times, always against its least claimant. */
  lemma RouteReportCount(claims: seq<Claim>, route: Bytes)
    ensures |GroupReports(Group(claims, route))| == if Group(claims, route) == [] then 0 else |Group(claims, route)| - 1
    ensures forall d | d in GroupReports(Group(claims, route)) :: AgainstLeast(Group(claims, route), d)
  {
    SortPermutes(Keyed(ClaimKey), Group(claims, route));
    forall d | d in GroupReports(Group(claims, route)) ensures AgainstLeast(Group(claims, route), d) {
      ReportIsAgainstLeast(Group(claims, route), d);
    }
  }

  ghost predicate DistinctRoutes(claims: seq<Claim>) {
    forall i, j | 0 <= i < j < |claims| :: claims[i].route != claims[j].route
  }

  lemma {:induction false} GroupHasBoth(claims: seq<Claim>, i: nat, j: nat)
    requires i < j < |claims| && claims[i].route == claims[j].route
    ensures |Group(claims, claims[i].route)| >= 2
  {
    var before, route := claims[..|claims| - 1], claims[i].route;
    if j < |before| {
      GroupHasBoth(before, i, j);
    } else {
      GroupMembers(before, route);
      assert before[i] in before;
      assert Group(before, route) != [];
    }
  }

  lemma {:induction false} GroupOfDistinct(claims: seq<Claim>, route: Bytes)
    requires DistinctRoutes(claims)
    ensures |Group(claims, route)| <= 1
  {
    if claims != [] {
      var before, last := claims[..|claims| - 1], claims[|claims| - 1];
      GroupOfDistinct(before, route);
      GroupMembers(before, route);
      if Group(before, route) != [] {
        assert Group(before, route)[0] in before;
        var k :| 0 <= k < |before| && before[k] == Group(before, route)[0];
        assert claims[k].route == route && claims[k].route != last.route;
      }
    }
  }

  /** Routes are pairwise distinct exactly when no route is reported. */
  lemma NoRouteReports(claims: seq<Claim>)
    ensures (forall d :: !IsRouteReport(claims, d)) <==> DistinctRoutes(claims)
  {
    if DistinctRoutes(claims) {
      forall route ensures GroupReports(Group(claims, route)) == [] {
        GroupOfDistinct(claims, route);
      }
    } else {
      var i, j :| 0 <= i < j < |claims| && claims[i].route == claims[j].route;
      var group := Group(claims, claims[i].route);
      GroupHasBoth(claims, i, j);
      RouteReportCount(claims, claims[i].route);
      assert GroupReports(group)[0] in GroupReports(group);
      assert IsRouteReport(claims, GroupReports(group)[0]);
    }
  }

  /** The routes of a post are added to the lists of those who claim them. */
  method CollectClaims(cs: seq<Candidate>) returns (routes: map<Bytes, seq<Claim>>)
    ensures forall route :: route in routes <==> Group(Claims(cs), route) != []
    ensures forall route | route in routes :: routes[route] == Group(Claims(cs), route)
  {
    routes := map[];
    assert cs[..0] == [];
    for i := 0 to |cs|
      invariant Collected(routes, Claims(cs[..i]))
    {
      assert cs[..i + 1][..i] == cs[..i];
      routes := AddPost(routes, Claims(cs[..i]), cs[i]);
    }
    assert cs[..|cs|] == cs;
  }

  method AddPost(routes: map<Bytes, seq<Claim>>, ghost done: seq<Claim>, c: Candidate)
    returns (more: map<Bytes, seq<Claim>>)
    requires Collected(routes, done)
    ensures Collected(more, WithAliases(done + SlugClaims(c), c, |c.aliases|))
  {
    more := routes;
    if c.slug.Some? {
      more := AddClaim(more, done, Claim(c.slug.value, c.path, c.index, Canonical, Ascii("slug")));
    }
    assert c.slug.None? ==> done + SlugClaims(c) == done;
    more := AddAliases(more, done + SlugClaims(c), c);
  }

  method AddAliases(routes: map<Bytes, seq<Claim>>, ghost done: seq<Claim>, c: Candidate)
    returns (more: map<Bytes, seq<Claim>>)
    requires Collected(routes, done)
    ensures Collected(more, WithAliases(done, c, |c.aliases|))
  {
    more := routes;
    ghost var claims := done;
    for k := 0 to |c.aliases|
      invariant claims == WithAliases(done, c, k) && Collected(more, claims)
    {
      var claim := AliasClaim(c, k);
      more := AddClaim(more, claims, claim);
      claims := claims + [claim];
    }
  }

  ghost predicate Collected(routes: map<Bytes, seq<Claim>>, claims: seq<Claim>) {
    && (forall route :: route in routes <==> Group(claims, route) != [])
    && (forall route | route in routes :: routes[route] == Group(claims, route))
  }

  method AddClaim(routes: map<Bytes, seq<Claim>>, ghost claims: seq<Claim>, claim: Claim)
    returns (more: map<Bytes, seq<Claim>>)
    requires Collected(routes, claims)
    ensures Collected(more, claims + [claim])
  {
    var before := if claim.route in routes then routes[claim.route] else [];
    more := routes[claim.route := before + [claim]];
    assert (claims + [claim])[..|claims|] == claims;
    assert Group(claims, claim.route) == before;
  }

  method ValidatePostRoutes(cs: seq<Candidate>, diagnostics: DiagnosticCollector)
    modifies diagnostics
    ensures forall d :: d in diagnostics.errors <==> d in old(diagnostics.errors) || IsRouteReport(Claims(cs), d)
    ensures DistinctRoutes(Claims(cs)) ==> diagnostics.errors == old(diagnostics.errors)
  {
    ghost var claims := Claims(cs);
    var routes := CollectClaims(cs);
    var todo := routes.Keys;
    while todo != {}
      invariant todo <= routes.Keys
      invariant forall d ::
                  d in diagnostics.errors <==> d in old(diagnostics.errors) || Settled(claims, routes.Keys - todo, d)
      invariant DistinctRoutes(claims) ==> diagnostics.errors == old(diagnostics.errors)
      decreases todo
    {
      var route :| route in todo;
      ghost var done := routes.Keys - todo;
      todo := todo - {route};
      assert routes.Keys - todo == done + {route};
      ghost var before := diagnostics.errors;
      ReportRoute(claims, route, routes[route], diagnostics);
      forall d
        ensures Settled(claims, done + {route}, d) <==>
                Settled(claims, done, d) || d in GroupReports(Group(claims, route))
      {
        SettledStep(claims, done, route, d);
      }
    }
    assert routes.Keys - todo == routes.Keys;
    forall d ensures IsRouteReport(claims, d) <==> Settled(claims, routes.Keys, d) {
      AllSettled(claims, routes.Keys, d);
    }
  }

  /** The diagnostic belongs to one of the routes dealt with. */
  ghost predicate Settled(claims: seq<Claim>, done: set<Bytes>, d: Diagnostic) {
    exists route :: route in done && d in GroupReports(Group(claims, route))
  }

  lemma SettledStep(claims: seq<Claim>, done: set<Bytes>, route: Bytes, d: Diagnostic)
    ensures Settled(claims, done + {route}, d) <==> Settled(claims, done, d) || d in GroupReports(Group(claims, route))
  {
    if Settled(claims, done, d) {
      var other :| other in done && d in GroupReports(Group(claims, other));
      assert other in done + {route};
    }
    assert route in done + {route};
  }

  lemma AllSettled(claims: seq<Claim>, routes: set<Bytes>, d: Diagnostic)
    requires forall route :: route in routes <==> Group(claims, route) != []
    ensures IsRouteReport(claims, d) <==> Settled(claims, routes, d)
  {
    if IsRouteReport(claims, d) {
      var route :| d in GroupReports(Group(claims, route));
      RouteReportCount(claims, route);
      assert route in routes;
    }
  }

  method ReportRoute(ghost claims: seq<Claim>, ghost route: Bytes, group: seq<Claim>, diagnostics: DiagnosticCollector)
    requires group == Group(claims, route)
    modifies diagnostics
    ensures diagnostics.errors == old(diagnostics.errors) + GroupReports(group)
    ensures DistinctRoutes(claims) ==> diagnostics.errors == old(diagnostics.errors)
  {
    if DistinctRoutes(claims) {
      GroupOfDistinct(claims, route);
    }
    if |group| > 1 {
      ReportGroup(group, diagnostics);
    }
  }

  method ReportGroup(group: seq<Claim>, diagnostics: DiagnosticCollector)
    requires |group| > 1
    modifies diagnostics
    ensures diagnostics.errors == old(diagnostics.errors) + GroupReports(group)
  {
    var duplicates := Sort(Keyed(ClaimKey), group);
    SortPermutes(Keyed(ClaimKey), group);
    var anchor := duplicates[0];
    ghost var reports := Map(Against(anchor), duplicates[1..]);
    for i := 1 to |duplicates|
      invariant diagnostics.errors == old(diagnostics.errors) + reports[..i - 1]
    {
      diagnostics.Push(RouteReport(anchor, duplicates[i]));
      assert reports[..i] == reports[..i - 1] + [RouteReport(anchor, duplicates[i])];
    }
    assert reports[..|reports|] == reports;
  }

  // The reports of one route are pairwise different.

  function PlaceOf(claim: Claim): Place {
    Place(claim.path, claim.field)
  }

  predicate DistinctPlaces(claims: seq<Claim>) {
    Distinct(Map(PlaceOf, claims))
  }

  lemma {:induction false} DecimalIsInjective(m: nat, n: nat)
    requires Decimal(m) == Decimal(n)
    ensures m == n
  {
    var dm, dn := Decimal(m), Decimal(n);
    if m >= 10 && n >= 10 {
      assert dm[..|dm| - 1] == Decimal(m / 10) && dn[..|dn| - 1] == Decimal(n / 10);
      assert dm[|dm| - 1] == Digit(m % 10) && dn[|dn| - 1] == Digit(n % 10);
      DecimalIsInjective(m / 10, n / 10);
    } else {
      DecimalLength(m);
      DecimalLength(n);
      assert dm[0] == dn[0];
    }
  }

  lemma DecimalLength(n: nat)
    ensures |Decimal(n)| >= 1 && (n >= 10 ==> |Decimal(n)| >= 2)
  {
  }

  lemma AliasFieldIsInjective(m: nat, n: nat)
    ensures AliasField(m) == AliasField(n) <==> m == n
    ensures AliasField(m) != Ascii("slug")
  {
    var prefix := Ascii("aliases[");
    var fm, fn := AliasField(m), AliasField(n);
    assert fm[0] == prefix[0] == 97 && Ascii("slug")[0] == 115;
    if fm == fn {
      assert fm[8..|fm| - 1] == Decimal(m) && fn[8..|fn| - 1] == Decimal(n);
      DecimalIsInjective(m, n);
    }
  }

  ghost predicate DistinctIndexes(c: Candidate) {
    forall i, j | 0 <= i < j < |c.aliases| :: c.aliases[i].0 != c.aliases[j].0
  }

  lemma DistinctAppend(claims: seq<Claim>, claim: Claim)
    requires DistinctPlaces(claims) && forall other | other in claims :: PlaceOf(other) != PlaceOf(claim)
    ensures DistinctPlaces(claims + [claim])
  {
    MapAppend(PlaceOf, claims, claim);
    forall i | 0 <= i < |claims| ensures Map(PlaceOf, claims)[i] != PlaceOf(claim) {
      assert claims[i] in claims;
    }
  }

  lemma {:induction false} AliasPlaces(before: seq<Claim>, c: Candidate, k: nat)
    requires DistinctPlaces(before) && DistinctIndexes(c) && k <= |c.aliases|
    requires forall claim | claim in before :: claim.path != c.path || claim.field == Ascii("slug")
    ensures DistinctPlaces(WithAliases(before, c, k))
    ensures forall claim | claim in WithAliases(before, c, k) ::
              claim in before || exists j :: 0 <= j < k && claim == AliasClaim(c, j)
  {
    if k > 0 {
      AliasPlaces(before, c, k - 1);
      var claim := AliasClaim(c, k - 1);
      forall other | other in WithAliases(before, c, k - 1) ensures PlaceOf(other) != PlaceOf(claim) {
        AliasFieldIsInjective(c.aliases[k - 1].0, 0);
        if other !in before {
          var j :| 0 <= j < k - 1 && other == AliasClaim(c, j);
          AliasFieldIsInjective(c.aliases[j].0, c.aliases[k - 1].0);
        }
      }
      DistinctAppend(WithAliases(before, c, k - 1), claim);
    }
  }

  ghost predicate ClaimedBySome(cs: seq<Candidate>, claim: Claim) {
    exists i :: 0 <= i < |cs| && cs[i].path == claim.path
  }

  /** Posts with distinct paths claim every route from a place of its own. */
  lemma {:induction false} ClaimsHaveDistinctPlaces(cs: seq<Candidate>)
    requires forall i, j | 0 <= i < j < |cs| :: cs[i].path != cs[j].path
    requires forall c | c in cs :: DistinctIndexes(c)
    ensures DistinctPlaces(Claims(cs))
    ensures forall claim | claim in Claims(cs) :: ClaimedBySome(cs, claim)
  {
    if cs != [] {
      var n := |cs| - 1;
      var before, last := Claims(cs[..n]), cs[n];
      ClaimsHaveDistinctPlaces(cs[..n]);
      forall claim | claim in before ensures claim.path != last.path && ClaimedBySome(cs, claim) {
        var i :| 0 <= i < n && cs[..n][i].path == claim.path;
        assert cs[i].path != cs[n].path;
      }
      var start := before + SlugClaims(last);
      if last.slug.Some? {
        DistinctAppend(before, SlugClaims(last)[0]);
      } else {
        assert start == before;
      }
      AliasPlaces(start, last, |last.aliases|);
      forall claim | claim in Claims(cs) ensures ClaimedBySome(cs, claim) {
        if claim !in before {
          assert cs[n].path == claim.path;
        }
      }
    }
  }

  lemma {:induction false} GroupPlaces(claims: seq<Claim>, route: Bytes)
    requires DistinctPlaces(claims)
    ensures DistinctPlaces(Group(claims, route))
  {
    if claims != [] {
      var before, last := claims[..|claims| - 1], claims[|claims| - 1];
      var places := Map(PlaceOf, claims);
      assert Map(PlaceOf, before) == places[..|before|];
      GroupPlaces(before, route);
      GroupMembers(before, route);
      if last.route == route {
        forall other | other in Group(before, route) ensures PlaceOf(other) != PlaceOf(last) {
          var i :| 0 <= i < |before| && before[i] == other;
          assert places[i] != places[|before|];
        }
        DistinctAppend(Group(before, route), last);
      } else {
        assert Group(claims, route) == Group(before, route);
      }
    }
  }

  /** Among posts with distinct paths the n - 1 reports of a route are n - 1 different diagnostics. */
  lemma RouteReportsAreDistinct(cs: seq<Candidate>, route: Bytes)
    requires forall i, j | 0 <= i < j < |cs| :: cs[i].path != cs[j].path
    requires forall c | c in cs :: DistinctIndexes(c)
    ensures Distinct(GroupReports(Group(Claims(cs), route)))
  {
    var group := Group(Claims(cs), route);
    var sorted := Sort(Keyed(ClaimKey), group);
    ClaimsHaveDistinctPlaces(cs);
    GroupPlaces(Claims(cs), route);
    SortPermutes(Keyed(ClaimKey), group);
    MapPermutes(PlaceOf, group, sorted);
    DistinctIsPermutationInvariant(Map(PlaceOf, group), Map(PlaceOf, sorted));
    var reports := GroupReports(group);
    forall i, j | 0 <= i < j < |reports| ensures reports[i] != reports[j] {
      assert Map(PlaceOf, sorted)[i + 1] != Map(PlaceOf, sorted)[j + 1];
    }
  }
}
