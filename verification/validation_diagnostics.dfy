/** Content-validation diagnostics, their sort key, and the collector that finishes them. */
module ValidationDiagnostics {
  import opened Framing
  import opened Content
  import opened Diagnostics

  // Codes are their positions in the source's declaration; the ones raised here have names.
  const ALIAS_MATCHES_SLUG := 41
  const DUPLICATE_POST_ID := 42
  const DUPLICATE_POST_SLUG := 43
  const DUPLICATE_POST_ALIAS := 44
  const DUPLICATE_POST_ROUTE := 45
  const INTERNAL_INVARIANT := 48

  datatype Place = Place(path: Bytes, field: Bytes)

  datatype Diagnostic = Diagnostic(path: Bytes, field: Bytes, code: nat, message: Bytes, related: Option<Place>)

  function SortRank(field: Bytes): nat {
    if field == Ascii("$path") then 0
    else if field == Ascii("$document") then 1
    else if field == Ascii("$frontmatter") then 2
    else if field == Ascii("site") then 10
    else if field == Ascii("site.title") then 11
    else if field == Ascii("site.base_url") then 12
    else if field == Ascii("site.description") then 13
    else if field == Ascii("site.favicon") then 14
    else if field == Ascii("site.image") then 15
    else if field == Ascii("author") then 20
    else if field == Ascii("author.name") then 21
    else if field == Ascii("assets") then 30
    else if field == Ascii("assets.allowed_https_origins") then 31
    else if field == Ascii("tips.enabled") then 50
    else PostSortRank(field)
  }

  function PostSortRank(field: Bytes): nat {
    if field == Ascii("id") then 100
    else if field == Ascii("title") then 110
    else if field == Ascii("slug") then 120
    else if field == Ascii("authored_at") then 130
    else if field == Ascii("updated_at") then 140
    else if field == Ascii("description") then 150
    else if field == Ascii("image") then 160
    else if field == Ascii("tags") then 170
    else if field == Ascii("aliases") then 180
    else if field == Ascii("draft") then 190
    else if field == Ascii("tips") then 200
    else if field == Ascii("published_at") then 220
    else if Ascii("assets.allowed_https_origins[") <= field then 32
    else if Ascii("tags[") <= field then 171
    else if Ascii("aliases[") <= field then 181
    else 1000
  }

  function RelatedKey(related: Option<Place>): Key {
    match related
    case None => [Num(0), Text([]), Text([])]
    case Some(place) => [Num(1), Text(place.path), Text(place.field)]
  }

  function DiagnosticKey(d: Diagnostic): Key {
    [Text(d.path), Num(SortRank(d.field)), Text(d.field), Num(d.code)] + RelatedKey(d.related) + [Text(d.message)]
  }

  lemma DiagnosticKeysIdentify()
    ensures KeyIdentifies(DiagnosticKey)
  {
    forall x, y | DiagnosticKey(x) == DiagnosticKey(y) ensures x == y {
      SameKeySameDiagnostic(x, y);
    }
  }

  lemma SameKeySameDiagnostic(x: Diagnostic, y: Diagnostic)
    requires DiagnosticKey(x) == DiagnosticKey(y)
    ensures x == y
  {
    var kx, ky := DiagnosticKey(x), DiagnosticKey(y);
    assert kx[0] == ky[0] && kx[2] == ky[2] && kx[3] == ky[3] && kx[7] == ky[7];
    assert kx[4] == ky[4] && kx[5] == ky[5] && kx[6] == ky[6];
  }

  /** Collects diagnostics in any order and hands them out sorted and without repeats. */
  class DiagnosticCollector {
    var errors: seq<Diagnostic>

    constructor ()
      ensures errors == []
    {
      errors := [];
    }

    method Push(error: Diagnostic)
      modifies this
      ensures errors == old(errors) + [error]
    {
      errors := errors + [error];
    }

    /** Never hands out an empty list: an empty collection becomes an invariant violation. */
    method Finish() returns (finished: seq<Diagnostic>)
      modifies this
      ensures StrictlyIncreasing(DiagnosticKey, finished) && finished != []
      ensures old(errors) != [] ==> forall d :: d in finished <==> d in old(errors)
    {
      if errors == [] {
        Push(Diagnostic(Ascii("<content-validation>"), Ascii("$document"), INTERNAL_INVARIANT, [], None));
      }
      DiagnosticKeysIdentify();
      CanonicaliseMeaning(DiagnosticKey, errors);
      finished := Canonicalise(DiagnosticKey, errors);
      assert errors[0] in finished;
    }
  }
}
