/** The stateful archive decoder: a bounded reader over one file, and the record loop above it. */
module ArchiveReaders {
  import opened Framing
  import opened Content
  import opened PathRegistries
  import opened Transcripts
  import opened TreeDigests
  import opened TreeValidations
  import opened ArchiveDecoding

  /** Reads a file from the front; `remaining` is what its length at opening still allows. */
  class Decoder {
    const file: Bytes
    var position: nat
    var remaining: nat

    ghost predicate Valid()
      reads this
    {
      position <= |file|
    }

    function Model(): Cursor
      requires Valid()
      reads this
    {
      Cursor(file[position..], remaining)
    }

    constructor (file: Bytes, archiveBytes: nat)
      ensures Valid() && Model() == Cursor(file, archiveBytes)
    {
      this.file := file;
      position, remaining := 0, archiveBytes;
    }

    method Read(length: nat) returns (r: Result<Bytes>)
      requires Valid()
      modifies this
      ensures Valid()
      ensures r.Ok? ==> ReadExact(old(Model()), length) == Ok((r.value, Model()))
      ensures r.Err? ==> ReadExact(old(Model()), length) == Err(r.error) && Model() == old(Model())
    {
      if length > remaining || length > |file| - position {
        return Err(InvalidArchive);
      }
      var bytes := file[position..position + length];
      assert file[position..][..length] == bytes;
      assert file[position..][length..] == file[position + length..];
      position, remaining := position + length, remaining - length;
      return Ok(bytes);
    }

    method Count(limit: nat) returns (r: Result<nat>)
      requires Valid()
      modifies this
      ensures Valid()
      ensures r.Ok? ==> ReadCount(old(Model()), limit) == Ok((r.value, Model()))
      ensures r.Err? ==> ReadCount(old(Model()), limit) == Err(r.error)
    {
      var field := Read(4);
      if field.Err? {
        return Err(field.error);
      }
      var count := FromBigEndian(field.value);
      return if count > limit then Err(LimitExceeded) else Ok(count);
    }

    method Text(limit: nat) returns (r: Result<Str>)
      requires Valid()
      modifies this
      ensures Valid()
      ensures r.Ok? ==> ReadString(old(Model()), limit) == Ok((r.value, Model()))
      ensures r.Err? ==> ReadString(old(Model()), limit) == Err(r.error)
    {
      var field := Read(4);
      if field.Err? {
        return Err(field.error);
      }
      var length := FromBigEndian(field.value);
      if length > limit {
        return Err(LimitExceeded);
      }
      var bytes := Read(length);
      if bytes.Err? {
        return Err(bytes.error);
      }
      return if Utf8(bytes.value) then Ok(bytes.value) else Err(InvalidArchive);
    }

    method Blob(limit: nat) returns (r: Result<Bytes>)
      requires Valid()
      modifies this
      ensures Valid()
      ensures r.Ok? ==> ReadBytes(old(Model()), limit) == Ok((r.value, Model()))
      ensures r.Err? ==> ReadBytes(old(Model()), limit) == Err(r.error)
    {
      var field := Read(8);
      if field.Err? {
        return Err(field.error);
      }
      var length := FromBigEndian(field.value);
      if length > limit {
        return Err(LimitExceeded);
      }
      r := Read(length);
    }

    method Source(limit: nat) returns (r: Result<Str>)
      requires Valid()
      modifies this
      ensures Valid()
      ensures r.Ok? ==> ReadUtf8(old(Model()), limit) == Ok((r.value, Model()))
      ensures r.Err? ==> ReadUtf8(old(Model()), limit) == Err(r.error)
    {
      var bytes := Blob(limit);
      if bytes.Err? {
        return Err(bytes.error);
      }
      return if Utf8(bytes.value) then Ok(bytes.value) else Err(InvalidArchive);
    }

    /** Magic, version, expected digest, and the stored byte total. */
    method Header(expected: Digest) returns (r: Result<u64>)
      requires Valid()
      modifies this
      ensures Valid()
      ensures r.Ok? ==> DecodeHeader(old(Model()), expected) == Ok((r.value, Model()))
      ensures r.Err? ==> DecodeHeader(old(Model()), expected) == Err(r.error)
    {
      var magic := Read(17);
      if magic.Err? {
        return Err(magic.error);
      }
      if magic.value != ArchiveFormat.ARCHIVE_MAGIC {
        return Err(InvalidArchive);
      }
      var version := Read(2);
      if version.Err? {
        return Err(version.error);
      }
      if FromBigEndian(version.value) != ArchiveFormat.ARCHIVE_VERSION {
        return Err(InvalidArchive);
      }
      var digest := Read(32);
      if digest.Err? {
        return Err(digest.error);
      }
      if digest.value != expected {
        return Err(DigestMismatch);
      }
      var total := Read(8);
      if total.Err? {
        return Err(total.error);
      }
      FromU64RoundTrip(total.value);
      return Ok(FromBigEndian(total.value));
    }

    method End() returns (outcome: Outcome)
      requires Valid()
      ensures outcome == ReadEnd(Model())
    {
      outcome := Need(remaining == 0 && position == |file|, InvalidArchive);
    }
  }

  function Prefixed<T>(before: seq<T>, rest: Result<(seq<T>, DecodeState)>): Result<(seq<T>, DecodeState)> {
    match rest
    case Ok(parts) => Ok((before + parts.0, parts.1))
    case Err(error) => Err(error)
  }

  lemma PrefixedNone<T>(rest: Result<(seq<T>, DecodeState)>)
    ensures Prefixed([], rest) == rest
  {
    if rest.Ok? {
      assert [] + rest.value.0 == rest.value.0;
    }
  }

  lemma PrefixedEmpty<T>(before: seq<T>, st: DecodeState)
    ensures Prefixed(before, Ok(([], st))) == Ok((before, st))
  {
    assert before + [] == before;
  }

  /** A record already read moves from the front of the rest to the end of what was read. */
  lemma PrefixedStep<T>(before: seq<T>, record: T, rest: Result<(seq<T>, DecodeState)>)
    ensures Prefixed(before, Prefixed([record], rest)) == Prefixed(before + [record], rest)
  {
    if rest.Ok? {
      assert before + ([record] + rest.value.0) == (before + [record]) + rest.value.0;
    }
  }

  lemma DecodeManyStep<T>(f: Format<T>, st: DecodeState, left: nat, previous: Option<Bytes>)
    ensures DecodeMany(f, st, left + 1, previous) ==
            if f.read(st, previous).Err? then Err(f.read(st, previous).error)
            else
              var first := f.read(st, previous).value;
              Prefixed([first.0], DecodeMany(f, first.1, left, Some(f.entry(first.0).path)))
  {
  }

  class CandidateDecoder {
    const archive: Decoder
    const limits: Limits
    const paths: PathRegistry
    var total: nat

    ghost predicate Valid()
      reads this, archive
    {
      archive.Valid()
    }

    function Model(): DecodeState
      requires Valid()
      reads this, archive, paths
    {
      DecodeState(archive.Model(), Ledger(total, paths.Model()))
    }

    constructor (archive: Decoder, limits: Limits)
      requires archive.Valid()
      ensures this.archive == archive && this.limits == limits && fresh(paths)
      ensures Valid() && Model() == DecodeState(archive.Model(), NOTHING)
    {
      this.archive, this.limits, total := archive, limits, 0;
      paths := new PathRegistry();
    }

    method ReadPublication() returns (r: Result<Publication>)
      requires Valid() && Model().ledger == NOTHING
      modifies this, archive, paths
      ensures Valid()
      ensures r.Ok? ==> DecodePublication(old(Model().cursor), limits) == Ok((r.value, Model()))
      ensures r.Err? ==> DecodePublication(old(Model().cursor), limits) == Err(r.error)
    {
      var path := archive.Text(limits.pathBytes);
      if path.Err? {
        return Err(path.error);
      }
      var outcome := ValidatePublicationPath(path.value, limits);
      if outcome.Pass? {
        outcome := paths.RegisterPath(path.value);
      }
      if outcome.Fail? {
        return Err(outcome.error);
      }
      var source := archive.Source(limits.publicationFileBytes);
      if source.Err? {
        return Err(source.error);
      }
      var sum := AddTotal(0, |source.value|, limits);
      if sum.Err? {
        return Err(sum.error);
      }
      total := sum.value;
      return Ok(Publication(path.value, source.value));
    }

    method ReadPost(previous: Option<Bytes>) returns (r: Result<Post>)
      requires Valid()
      modifies this, archive, paths
      ensures Valid()
      ensures r.Ok? ==> DecodePost(old(Model()), previous, limits) == Ok((r.value, Model()))
      ensures r.Err? ==> DecodePost(old(Model()), previous, limits) == Err(r.error)
    {
      var tag := archive.Read(1);
      if tag.Err? {
        return Err(tag.error);
      }
      var collection := ParseCollection(tag.value[0]);
      if collection.Err? {
        return Err(collection.error);
      }
      var path := archive.Text(limits.pathBytes);
      if path.Err? {
        return Err(path.error);
      }
      var outcome := ValidatePostPath(path.value, collection.value, limits);
      if outcome.Pass? {
        outcome := Need(InOrder(previous, path.value), InvalidArchive);
      }
      if outcome.Pass? {
        outcome := paths.RegisterPath(path.value);
      }
      if outcome.Fail? {
        return Err(outcome.error);
      }
      var source := archive.Source(limits.postFileBytes);
      if source.Err? {
        return Err(source.error);
      }
      var sum := AddTotal(total, |source.value|, limits);
      if sum.Err? {
        return Err(sum.error);
      }
      total := sum.value;
      return Ok(Post(path.value, collection.value, source.value));
    }

    method ReadPosts() returns (r: Result<seq<Post>>)
      requires Valid()
      modifies this, archive, paths
      ensures Valid()
      ensures r.Ok? ==>
                DecodeSection(PostFormat(limits), old(Model()), SaturatingSub(limits.entries, 1))
                == Ok((r.value, Model()))
      ensures r.Err? ==>
                DecodeSection(PostFormat(limits), old(Model()), SaturatingSub(limits.entries, 1)) == Err(r.error)
    {
      var count := archive.Count(SaturatingSub(limits.entries, 1));
      if count.Err? {
        return Err(count.error);
      }
      var posts: seq<Post>, previous: Option<Bytes> := [], None;
      ghost var f, start := PostFormat(limits), Model();
      PrefixedNone(DecodeMany(f, start, count.value, None));
      for left := count.value downto 0
        invariant Valid()
        invariant DecodeMany(f, start, count.value, None) == Prefixed(posts, DecodeMany(f, Model(), left, previous))
      {
        ghost var before := Model();
        var post := ReadPost(previous);
        DecodeManyStep(f, before, left, previous);
        if post.Err? {
          return Err(post.error);
        }
        previous := Some(post.value.path);
        PrefixedStep(posts, post.value, DecodeMany(f, Model(), left, previous));
        posts := posts + [post.value];
      }
      PrefixedEmpty(posts, Model());
      return Ok(posts);
    }

    method ReadAsset(previous: Option<Bytes>) returns (r: Result<Asset>)
      requires Valid()
      modifies this, archive, paths
      ensures Valid()
      ensures r.Ok? ==> DecodeAsset(old(Model()), previous, limits) == Ok((r.value, Model()))
      ensures r.Err? ==> DecodeAsset(old(Model()), previous, limits) == Err(r.error)
    {
      var path := archive.Text(limits.pathBytes);
      if path.Err? {
        return Err(path.error);
      }
      var outcome := ValidateAssetPath(path.value, limits);
      if outcome.Pass? {
        outcome := Need(InOrder(previous, path.value), InvalidArchive);
      }
      if outcome.Pass? {
        outcome := paths.RegisterPath(path.value);
      }
      if outcome.Fail? {
        return Err(outcome.error);
      }
      var bytes := archive.Blob(limits.assetFileBytes);
      if bytes.Err? {
        return Err(bytes.error);
      }
      var sum := AddTotal(total, |bytes.value|, limits);
      if sum.Err? {
        return Err(sum.error);
      }
      total := sum.value;
      return Ok(Asset(path.value, bytes.value));
    }

    method ReadAssets(postCount: nat) returns (r: Result<seq<Asset>>)
      requires Valid()
      modifies this, archive, paths
      ensures Valid()
      ensures r.Ok? ==>
                DecodeSection(AssetFormat(limits), old(Model()),
                              SaturatingSub(SaturatingSub(limits.entries, 1), postCount)) == Ok((r.value, Model()))
      ensures r.Err? ==>
                DecodeSection(AssetFormat(limits), old(Model()),
                              SaturatingSub(SaturatingSub(limits.entries, 1), postCount)) == Err(r.error)
    {
      var count := archive.Count(SaturatingSub(SaturatingSub(limits.entries, 1), postCount));
      if count.Err? {
        return Err(count.error);
      }
      var assets: seq<Asset>, previous: Option<Bytes> := [], None;
      ghost var f, start := AssetFormat(limits), Model();
      PrefixedNone(DecodeMany(f, start, count.value, None));
      for left := count.value downto 0
        invariant Valid()
        invariant DecodeMany(f, start, count.value, None) == Prefixed(assets, DecodeMany(f, Model(), left, previous))
      {
        ghost var before := Model();
        var asset := ReadAsset(previous);
        DecodeManyStep(f, before, left, previous);
        if asset.Err? {
          return Err(asset.error);
        }
        previous := Some(asset.value.path);
        PrefixedStep(assets, asset.value, DecodeMany(f, Model(), left, previous));
        assets := assets + [asset.value];
      }
      PrefixedEmpty(assets, Model());
      return Ok(assets);
    }
  }

  /** Decodes one candidate file; succeeds exactly on the canonical archive of an accepted tree. */
  method DecodeCandidate(file: Bytes, archiveBytes: u64, expected: Digest, limits: Limits, hash: Hash)
    returns (r: Result<Tree>)
    ensures r == Decode(file, archiveBytes, expected, limits, hash)
  {
    var archive := new Decoder(file, archiveBytes);
    var stored := archive.Header(expected);
    if stored.Err? {
      return Err(stored.error);
    }
    var decoder := new CandidateDecoder(archive, limits);
    var publication := decoder.ReadPublication();
    if publication.Err? {
      return Err(publication.error);
    }
    var posts := decoder.ReadPosts();
    if posts.Err? {
      return Err(posts.error);
    }
    var assets := decoder.ReadAssets(|posts.value|);
    if assets.Err? {
      return Err(assets.error);
    }
    var outcome := archive.End();
    if outcome.Fail? {
      return Err(outcome.error);
    }
    if decoder.total != stored.value {
      return Err(InvalidArchive);
    }
    var tree := Tree(publication.value, posts.value, assets.value, stored.value);
    var digest := DigestTree(tree, hash);
    return if digest == expected then Ok(tree) else Err(DigestMismatch);
  }
}
