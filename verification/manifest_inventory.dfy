/** The inventory of a checkpoint manifest: which files and candidate archives it lists, under which
    paths, with which digests and sizes. */
module ManifestInventories {
  import opened Framing
  import opened Content
  import opened TreeDigests
  import opened CandidateNames

  const MAX_FILES := 8192
  const MAX_BYTES := 18_253_611_008  // 17 GiB

  /** A listed identity; None where the manifest's field is absent or of another type. */
  datatype Identity = Identity(digest: Option<Bytes>, bytes: Option<int>)

  datatype LtxItem = LtxItem(level: Option<int>, name: Option<Bytes>, file: Option<Identity>)
  datatype ArtifactItem = ArtifactItem(name: Option<Bytes>, file: Option<Identity>)

  datatype Entry = Entry(path: Bytes, file: Option<Identity>)

  datatype Inventory = Collected(entries: seq<Entry>) | Invalid

  predicate HexDigits(text: Bytes) {
    forall b | b in text :: DecodeNibble(b).Some?
  }

  /** Two sixteen-digit transaction numbers, a hyphen between them, and the suffix. */
  predicate LtxName(name: Bytes) {
    |name| == 37 && HexDigits(name[..16]) && name[16] == 45 && HexDigits(name[17..33]) && name[33..] == Ascii(".ltx")
  }

  predicate DigestText(text: Bytes) {
    |text| == 64 && HexDigits(text)
  }

  predicate GoodLtx(item: LtxItem) {
    item.level.Some? && 0 <= item.level.value < 10 && item.name.Some? && LtxName(item.name.value)
  }

  predicate GoodArtifact(item: ArtifactItem) {
    item.name.Some? && IsCandidateName(item.name.value)
  }

  function LtxPath(item: LtxItem): Bytes
    requires GoodLtx(item)
  {
    var digit: u8 := 48 + item.level.value;
    Ascii("ltx/") + [digit] + [SLASH] + item.name.value
  }

  function ArtifactPath(item: ArtifactItem): Bytes
    requires GoodArtifact(item)
  {
    Ascii("content-candidates/") + item.name.value
  }

  predicate GoodIdentity(file: Option<Identity>) {
    && file.Some? && file.value.digest.Some? && DigestText(file.value.digest.value)
    && file.value.bytes.Some? && 0 < file.value.bytes.value <= MAX_BYTES
  }

  function LtxEntries(files: seq<LtxItem>): (entries: seq<Entry>)
    requires forall item | item in files :: GoodLtx(item)
    ensures |entries| == |files|
  {
    seq(|files|, i requires 0 <= i < |files| => assert files[i] in files; Entry(LtxPath(files[i]), files[i].file))
  }

  function ArtifactEntries(artifacts: seq<ArtifactItem>): (entries: seq<Entry>)
    requires forall item | item in artifacts :: GoodArtifact(item)
    ensures |entries| == |artifacts|
  {
    seq(|artifacts|, i requires 0 <= i < |artifacts| =>
      assert artifacts[i] in artifacts; Entry(ArtifactPath(artifacts[i]), artifacts[i].file))
  }

  function SizeOf(file: Option<Identity>): int {
    if GoodIdentity(file) then file.value.bytes.value else 0
  }

  function Total(entries: seq<Entry>): int {
    if entries == [] then 0 else Total(entries[..|entries| - 1]) + SizeOf(entries[|entries| - 1].file)
  }

  predicate DistinctPaths(entries: seq<Entry>) {
    forall i, j | 0 <= i < j < |entries| :: entries[i].path != entries[j].path
  }

  /** What an inventory has to satisfy: bounded count, good names and identities, no path twice,
      and the sizes together within the byte limit. */
  ghost predicate Acceptable(files: seq<LtxItem>, artifacts: seq<ArtifactItem>) {
    && files != [] && |files| + |artifacts| <= MAX_FILES
    && (forall item | item in files :: GoodLtx(item) && GoodIdentity(item.file))
    && (forall item | item in artifacts :: GoodArtifact(item) && GoodIdentity(item.file))
    && DistinctPaths(LtxEntries(files) + ArtifactEntries(artifacts))
    && Total(LtxEntries(files) + ArtifactEntries(artifacts)) <= MAX_BYTES
  }

  lemma IdentitiesOfEntries(files: seq<LtxItem>, artifacts: seq<ArtifactItem>)
    requires (forall item | item in files :: GoodLtx(item)) && (forall item | item in artifacts :: GoodArtifact(item))
    ensures (forall entry | entry in LtxEntries(files) + ArtifactEntries(artifacts) :: GoodIdentity(entry.file)) <==>
            (forall item | item in files :: GoodIdentity(item.file))
            && (forall item | item in artifacts :: GoodIdentity(item.file))
  {
    var entries := LtxEntries(files) + ArtifactEntries(artifacts);
    if forall entry | entry in entries :: GoodIdentity(entry.file) {
      forall item | item in files ensures GoodIdentity(item.file) {
        var i :| 0 <= i < |files| && files[i] == item;
        assert entries[i] in entries;
      }
      forall item | item in artifacts ensures GoodIdentity(item.file) {
        var i :| 0 <= i < |artifacts| && artifacts[i] == item;
        assert entries[|files| + i] in entries;
      }
    }
  }

  method CollectLtx(files: seq<LtxItem>) returns (entries: Option<seq<Entry>>)
    ensures entries.Some? <==> forall item | item in files :: GoodLtx(item)
    ensures entries.Some? ==> entries.value == LtxEntries(files)
  {
    var collected: seq<Entry> := [];
    for i := 0 to |files|
      invariant forall item | item in files[..i] :: GoodLtx(item)
      invariant |collected| == i
      invariant forall k | 0 <= k < i :: GoodLtx(files[k]) && collected[k] == Entry(LtxPath(files[k]), files[k].file)
    {
      if !GoodLtx(files[i]) {
        return None;
      }
      collected := collected + [Entry(LtxPath(files[i]), files[i].file)];
    }
    assert files[..|files|] == files;
    return Some(collected);
  }

  method CollectArtifacts(artifacts: seq<ArtifactItem>) returns (entries: Option<seq<Entry>>)
    ensures entries.Some? <==> forall item | item in artifacts :: GoodArtifact(item)
    ensures entries.Some? ==> entries.value == ArtifactEntries(artifacts)
  {
    var collected: seq<Entry> := [];
    for i := 0 to |artifacts|
      invariant forall item | item in artifacts[..i] :: GoodArtifact(item)
      invariant |collected| == i
      invariant forall k | 0 <= k < i ::
                  GoodArtifact(artifacts[k]) && collected[k] == Entry(ArtifactPath(artifacts[k]), artifacts[k].file)
    {
      if !GoodArtifact(artifacts[i]) {
        return None;
      }
      collected := collected + [Entry(ArtifactPath(artifacts[i]), artifacts[i].file)];
    }
    assert artifacts[..|artifacts|] == artifacts;
    return Some(collected);
  }

  /** The scan over the collected entries: no path twice, good identities, sizes within the limit. */
  method CheckEntries(entries: seq<Entry>) returns (accepted: bool)
    ensures accepted <==>
            DistinctPaths(entries) && (forall entry | entry in entries :: GoodIdentity(entry.file))
            && Total(entries) <= MAX_BYTES
  {
    var total, seen: set<Bytes> := 0, {};
    assert entries[..0] == [];
    for i := 0 to |entries|
      invariant total == Total(entries[..i]) && Sees(seen, entries[..i]) && Checked(entries[..i])
    {
      var entry := entries[i];
      CheckedStep(entries, i, seen);
      if entry.path in seen || !GoodIdentity(entry.file) {
        return false;
      }
      seen := seen + {entry.path};
      total := total + entry.file.value.bytes.value;
    }
    assert entries[..|entries|] == entries;
    return total <= MAX_BYTES;
  }

  ghost predicate Sees(seen: set<Bytes>, entries: seq<Entry>) {
    forall path :: path in seen <==> exists k :: 0 <= k < |entries| && entries[k].path == path
  }

  ghost predicate Checked(entries: seq<Entry>) {
    DistinctPaths(entries) && forall entry | entry in entries :: GoodIdentity(entry.file)
  }

  /** One more entry passes exactly when its path is new and its identity good, and one that does
      not pass refuses the whole list. */
  lemma CheckedStep(entries: seq<Entry>, i: nat, seen: set<Bytes>)
    requires i < |entries| && Sees(seen, entries[..i]) && Checked(entries[..i])
    ensures Sees(seen + {entries[i].path}, entries[..i + 1])
    ensures Checked(entries[..i + 1]) <==> entries[i].path !in seen && GoodIdentity(entries[i].file)
    ensures Checked(entries) ==> Checked(entries[..i + 1])
    ensures Total(entries[..i + 1]) == Total(entries[..i]) + SizeOf(entries[i].file)
  {
    var before, entry := entries[..i], entries[i];
    assert entries[..i + 1] == before + [entry];
    SeesStep(seen, before, entry);
    CheckedOneMore(seen, before, entry);
    if Checked(entries) {
      assert forall other | other in entries[..i + 1] :: other in entries;
    }
  }

  lemma SeesStep(seen: set<Bytes>, before: seq<Entry>, entry: Entry)
    requires Sees(seen, before)
    ensures Sees(seen + {entry.path}, before + [entry])
  {
    var longer := before + [entry];
    forall path ensures path in seen + {entry.path} <==> exists k :: 0 <= k < |longer| && longer[k].path == path {
      if path in seen {
        var k :| 0 <= k < |before| && before[k].path == path;
        assert longer[k].path == path;
      }
      assert longer[|before|].path == entry.path;
    }
  }

  lemma CheckedOneMore(seen: set<Bytes>, before: seq<Entry>, entry: Entry)
    requires Sees(seen, before) && Checked(before)
    ensures Checked(before + [entry]) <==> entry.path !in seen && GoodIdentity(entry.file)
    ensures Total(before + [entry]) == Total(before) + SizeOf(entry.file)
  {
    var longer := before + [entry];
    assert longer[..|before|] == before && longer[|before|] == entry;
    if entry.path in seen {
      var k :| 0 <= k < |before| && before[k].path == entry.path;
      assert longer[k].path == longer[|before|].path;
    }
    assert entry in longer;
  }

  /** Reads the inventory of a manifest whose lists are `files` and `artifacts`. */
  method ManifestInventory(files: seq<LtxItem>, artifacts: seq<ArtifactItem>) returns (r: Inventory)
    ensures r.Collected? <==> Acceptable(files, artifacts)
    ensures r.Collected? ==> r.entries == LtxEntries(files) + ArtifactEntries(artifacts)
  {
    if files == [] || |files| + |artifacts| > MAX_FILES {
      return Invalid;
    }
    var first := CollectLtx(files);
    if first.None? {
      return Invalid;
    }
    var second := CollectArtifacts(artifacts);
    if second.None? {
      return Invalid;
    }
    IdentitiesOfEntries(files, artifacts);
    var accepted := CheckEntries(first.value + second.value);
    return if accepted then Collected(first.value + second.value) else Invalid;
  }

  /** No accepted inventory lists two archives or two transaction files under one path, and the two
      kinds never meet: distinct items make distinct paths. */
  lemma PathsIdentifyItems(x: LtxItem, y: LtxItem, a: ArtifactItem, b: ArtifactItem)
    requires GoodLtx(x) && GoodLtx(y) && GoodArtifact(a) && GoodArtifact(b)
    ensures LtxPath(x) == LtxPath(y) <==> x.level == y.level && x.name == y.name
    ensures ArtifactPath(a) == ArtifactPath(b) <==> a.name == b.name
    ensures LtxPath(x) != ArtifactPath(a)
  {
    var dx: u8, dy: u8 := 48 + x.level.value, 48 + y.level.value;
    var prefix := Ascii("ltx/");
    assert LtxPath(x)[4] == dx && LtxPath(y)[4] == dy;
    assert LtxPath(x)[6..] == x.name.value && LtxPath(y)[6..] == y.name.value;
    var other := Ascii("content-candidates/");
    assert |other| == 19;
    assert ArtifactPath(a)[19..] == a.name.value && ArtifactPath(b)[19..] == b.name.value;
    assert LtxPath(x)[0] == prefix[0] == 108 && ArtifactPath(a)[0] == other[0] == 99;
  }
}
