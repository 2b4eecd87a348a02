/** The identity of a content tree: a canonical transcript, its digest, and the digest's text form. */
module TreeDigests {
  import opened Framing
  import opened Ordering
  import opened Content
  import opened Transcripts

  const CONTENT_TREE_CONTEXT := "maincopy content tree digest v1"
  const CONTENT_TREE_KIND: Bytes := Ascii("maincopy-content-tree")
  const CONTENT_TREE_VERSION := 1

  function PostField(post: Post): Bytes {
    Frame(post.path) + ([post.collection.Tag()] + Frame(post.source))
  }

  function AssetField(asset: Asset): Bytes {
    Frame(asset.path) + Frame(asset.bytes)
  }

  function PostsPart(tree: Tree): Bytes {
    Counted(PostField, Sort(PostLeq, tree.posts))
  }

  function AssetsPart(tree: Tree): Bytes {
    Counted(AssetField, Sort(AssetLeq, tree.assets))
  }

  function TreeTranscript(tree: Tree): Bytes {
    Header(CONTENT_TREE_KIND, CONTENT_TREE_VERSION)
    + [0] + Frame(tree.publication.path) + Frame(tree.publication.source)
    + [1] + PostsPart(tree)
    + [2] + AssetsPart(tree)
  }

  function TreeDigest(tree: Tree, hash: Hash): Digest {
    hash(CONTENT_TREE_CONTEXT, TreeTranscript(tree))
  }

  method FeedPost(transcript: Transcript, post: Post)
    modifies transcript
    ensures transcript.fed == old(transcript.fed) + PostField(post)
  {
    ghost var start := transcript.fed;
    transcript.FramedBytes(post.path);
    transcript.PutTag(post.collection.Tag());
    transcript.FramedBytes(post.source);
    Associate4(start, Frame(post.path), [post.collection.Tag()], Frame(post.source));
  }

  method FeedPosts(transcript: Transcript, posts: seq<Post>)
    modifies transcript
    ensures transcript.fed == old(transcript.fed) + Counted(PostField, posts)
  {
    transcript.SequenceLen(|posts|);
    ghost var start := transcript.fed;
    for i := 0 to |posts|
      invariant transcript.fed == start + Concat(PostField, posts[..i])
    {
      FeedPost(transcript, posts[i]);
      ConcatTake(PostField, posts, i);
      Associate(start, Concat(PostField, posts[..i]), PostField(posts[i]));
    }
    assert posts[..|posts|] == posts;
    Associate(old(transcript.fed), U64(|posts|), Concat(PostField, posts));
  }

  method FeedAssets(transcript: Transcript, assets: seq<Asset>)
    modifies transcript
    ensures transcript.fed == old(transcript.fed) + Counted(AssetField, assets)
  {
    transcript.SequenceLen(|assets|);
    ghost var start := transcript.fed;
    for i := 0 to |assets|
      invariant transcript.fed == start + Concat(AssetField, assets[..i])
    {
      ghost var before := transcript.fed;
      transcript.FramedBytes(assets[i].path);
      transcript.FramedBytes(assets[i].bytes);
      Associate(before, Frame(assets[i].path), Frame(assets[i].bytes));
      ConcatTake(AssetField, assets, i);
      Associate(start, Concat(AssetField, assets[..i]), AssetField(assets[i]));
    }
    assert assets[..|assets|] == assets;
    Associate(old(transcript.fed), U64(|assets|), Concat(AssetField, assets));
  }

  /** Feeds the canonical transcript of a tree; the order of its posts and assets and its
      declared byte total play no part. */
  method DigestTree(tree: Tree, hash: Hash) returns (digest: Digest)
    ensures digest == TreeDigest(tree, hash)
  {
    var transcript := new Transcript(CONTENT_TREE_CONTEXT, CONTENT_TREE_KIND, CONTENT_TREE_VERSION);
    transcript.PutTag(0);
    transcript.FramedBytes(tree.publication.path);
    transcript.FramedBytes(tree.publication.source);
    transcript.PutTag(1);
    FeedPosts(transcript, Sort(PostLeq, tree.posts));
    transcript.PutTag(2);
    FeedAssets(transcript, Sort(AssetLeq, tree.assets));
    digest := transcript.Finish(hash);
  }

  ghost predicate SizedPost(post: Post) {
    Sized(post.path) && Sized(post.source)
  }

  ghost predicate SizedAsset(asset: Asset) {
    Sized(asset.path) && Sized(asset.bytes)
  }

  /** Every length in the tree can be written as a u64, as any tree held in memory can. */
  ghost predicate SizedTree(tree: Tree) {
    && Sized(tree.publication.path) && Sized(tree.publication.source)
    && |tree.posts| < U64_RANGE && |tree.assets| < U64_RANGE
    && (forall post | post in tree.posts :: SizedPost(post))
    && (forall asset | asset in tree.assets :: SizedAsset(asset))
  }

  lemma TaggedFrameSplit(m: u8, n: u8, a: Bytes, b: Bytes, rest: Bytes)
    requires Sized(a) && Sized(b) && [m] + Frame(a) + rest == [n] + Frame(b)
    ensures m == n && a == b
  {
    Associate([m], Frame(a), rest);
    SplitFixed([m], [n], Frame(a) + rest, Frame(b));
    assert [m][0] == [n][0];
    assert Frame(b) == Frame(b) + [];
    FrameSplit(a, b, rest, []);
  }

  lemma PostFieldSplit(x: Post, y: Post, rest: Bytes)
    requires SizedPost(x) && SizedPost(y) && PostField(y) == PostField(x) + rest
    ensures x == y
  {
    var sx, sy := [x.collection.Tag()] + Frame(x.source), [y.collection.Tag()] + Frame(y.source);
    Associate(Frame(x.path), sx, rest);
    FrameSplit(x.path, y.path, sx + rest, sy);
    TaggedFrameSplit(x.collection.Tag(), y.collection.Tag(), x.source, y.source, rest);
  }

  lemma PostFieldPrefixFree()
    ensures PrefixFree(PostField, (post: Post) => SizedPost(post))
  {
    forall x: Post, y: Post | SizedPost(x) && SizedPost(y) && PostField(x) <= PostField(y) ensures x == y {
      PostFieldSplit(x, y, Rest(PostField(x), PostField(y)));
    }
  }

  lemma AssetFieldSplit(x: Asset, y: Asset, rest: Bytes)
    requires SizedAsset(x) && SizedAsset(y) && AssetField(y) == AssetField(x) + rest
    ensures x == y
  {
    var sx, sy := Frame(x.bytes), Frame(y.bytes);
    Associate(Frame(x.path), sx, rest);
    FrameSplit(x.path, y.path, sx + rest, sy);
    assert sy + [] == sy;
    FrameSplit(x.bytes, y.bytes, rest, []);
  }

  lemma AssetFieldPrefixFree()
    ensures PrefixFree(AssetField, (asset: Asset) => SizedAsset(asset))
  {
    forall x: Asset, y: Asset | SizedAsset(x) && SizedAsset(y) && AssetField(x) <= AssetField(y) ensures x == y {
      AssetFieldSplit(x, y, Rest(AssetField(x), AssetField(y)));
    }
  }

  lemma PublicationSplit(left: Tree, right: Tree, s: Bytes, t: Bytes)
    requires SizedTree(left) && SizedTree(right)
    requires [0] + Frame(left.publication.path) + Frame(left.publication.source) + s
          == [0] + Frame(right.publication.path) + Frame(right.publication.source) + t
    ensures left.publication == right.publication && s == t
  {
    var lp, ls := Frame(left.publication.path), Frame(left.publication.source);
    var rp, rs := Frame(right.publication.path), Frame(right.publication.source);
    Associate4([0], lp, ls, s);
    Associate4([0], rp, rs, t);
    SplitFixed([0], [0], lp + (ls + s), rp + (rs + t));
    FrameSplit(left.publication.path, right.publication.path, ls + s, rs + t);
    FrameSplit(left.publication.source, right.publication.source, s, t);
  }

  lemma CollectionsSplit(left: Tree, right: Tree)
    requires SizedTree(left) && SizedTree(right)
    requires [1] + (PostsPart(left) + ([2] + AssetsPart(left))) == [1] + (PostsPart(right) + ([2] + AssetsPart(right)))
    ensures Sort(PostLeq, left.posts) == Sort(PostLeq, right.posts)
    ensures Sort(AssetLeq, left.assets) == Sort(AssetLeq, right.assets)
  {
    var la, ra := [2] + AssetsPart(left), [2] + AssetsPart(right);
    SortPermutes(PostLeq, left.posts);
    SortPermutes(PostLeq, right.posts);
    SortPermutes(AssetLeq, left.assets);
    SortPermutes(AssetLeq, right.assets);
    SplitFixed([1], [1], PostsPart(left) + la, PostsPart(right) + ra);
    PostFieldPrefixFree();
    CountedSplit(PostField, (post: Post) => SizedPost(post),
                 Sort(PostLeq, left.posts), Sort(PostLeq, right.posts), la, ra);
    SplitFixed([2], [2], AssetsPart(left), AssetsPart(right));
    AssetFieldPrefixFree();
    assert AssetsPart(left) + [] == AssetsPart(right) + [];
    CountedSplit(AssetField, (asset: Asset) => SizedAsset(asset),
                 Sort(AssetLeq, left.assets), Sort(AssetLeq, right.assets), [], []);
  }

  lemma Regroup(tree: Tree)
    ensures TreeTranscript(tree) ==
            Header(CONTENT_TREE_KIND, CONTENT_TREE_VERSION)
            + ([0] + Frame(tree.publication.path) + Frame(tree.publication.source)
               + ([1] + (PostsPart(tree) + ([2] + AssetsPart(tree)))))
  {
    var header := Header(CONTENT_TREE_KIND, CONTENT_TREE_VERSION);
    var path, source := Frame(tree.publication.path), Frame(tree.publication.source);
    var head := header + [0] + path + source;
    Associate4(header, [0], path, source);
    Associate([0], path, source);
    assert head == header + ([0] + path + source);
    Associate(head + [1] + PostsPart(tree), [2], AssetsPart(tree));
    Associate4(head, [1], PostsPart(tree), [2] + AssetsPart(tree));
    Associate(header, [0] + path + source, [1] + (PostsPart(tree) + ([2] + AssetsPart(tree))));
  }

  lemma TranscriptDetermines(left: Tree, right: Tree)
    requires SizedTree(left) && SizedTree(right)
    requires TreeTranscript(left) == TreeTranscript(right)
    ensures left.publication == right.publication
    ensures Sort(PostLeq, left.posts) == Sort(PostLeq, right.posts)
    ensures Sort(AssetLeq, left.assets) == Sort(AssetLeq, right.assets)
  {
    Regroup(left);
    Regroup(right);
    var header := Header(CONTENT_TREE_KIND, CONTENT_TREE_VERSION);
    var l := [0] + Frame(left.publication.path) + Frame(left.publication.source);
    var r := [0] + Frame(right.publication.path) + Frame(right.publication.source);
    var ls := [1] + (PostsPart(left) + ([2] + AssetsPart(left)));
    var rs := [1] + (PostsPart(right) + ([2] + AssetsPart(right)));
    SplitFixed(header, header, l + ls, r + rs);
    PublicationSplit(left, right, ls, rs);
    CollectionsSplit(left, right);
  }

  /** Two trees have one transcript exactly when they hold the same publication and the same
      posts and assets as multisets, whatever their `totalBytes` say. */
  lemma TranscriptIsTheUnorderedTree(left: Tree, right: Tree)
    requires SizedTree(left) && SizedTree(right)
    ensures TreeTranscript(left) == TreeTranscript(right) <==>
            && left.publication == right.publication
            && multiset(left.posts) == multiset(right.posts)
            && multiset(left.assets) == multiset(right.assets)
  {
    if TreeTranscript(left) == TreeTranscript(right) {
      TranscriptDetermines(left, right);
      SortPermutes(PostLeq, left.posts);
      SortPermutes(PostLeq, right.posts);
      SortPermutes(AssetLeq, left.assets);
      SortPermutes(AssetLeq, right.assets);
    }
    if multiset(left.posts) == multiset(right.posts) && multiset(left.assets) == multiset(right.assets) {
      CanonicalUnique(left, right);
    }
  }

  lemma DigestOfCanonical(tree: Tree, hash: Hash)
    ensures TreeDigest(Canonical(tree), hash) == TreeDigest(tree, hash)
  {
    CanonicalIdempotent(tree);
    CanonicalUnique(Canonical(tree), tree);
  }

  // The text form: a versioned prefix and 64 lowercase hexadecimal digits.

  datatype ParseResult = Parsed(digest: Digest) | InvalidPrefix | InvalidLength | InvalidEncoding

  const DIGEST_PREFIX: Bytes := Ascii("content-b3-v1-")

  function Nibble(value: int): u8
    requires 0 <= value < 16
  {
    if value < 10 then 48 + value else 87 + value
  }

  function DecodeNibble(b: u8): Option<int> {
    if 48 <= b <= 57 then Some(b - 48) else if 97 <= b <= 102 then Some(b - 87) else None
  }

  function Hex(bytes: Bytes): (text: Bytes)
    ensures |text| == 2 * |bytes|
  {
    if bytes == [] then [] else [Nibble(bytes[0] / 16), Nibble(bytes[0] % 16)] + Hex(bytes[1..])
  }

  function DecodePair(high: u8, low: u8): Option<u8> {
    if DecodeNibble(high).Some? && DecodeNibble(low).Some? then
      Some(16 * DecodeNibble(high).value + DecodeNibble(low).value)
    else
      None
  }

  function Display(digest: Digest): Bytes {
    DIGEST_PREFIX + Hex(digest)
  }

  /** Decodes 64 digits pair by pair, or reports that some digit is not lowercase hexadecimal. */
  method DecodeHex(encoded: Bytes) returns (digest: Option<Digest>)
    requires |encoded| == 64
    ensures digest.None? <==> exists i | 0 <= i < 64 :: DecodeNibble(encoded[i]).None?
    ensures digest.Some? ==> encoded == Hex(digest.value)
  {
    var bytes := new u8[32](i => 0);
    for index := 0 to 32
      invariant forall i | 0 <= i < 2 * index :: DecodeNibble(encoded[i]).Some?
      invariant encoded[..2 * index] == Hex(bytes[..index])
    {
      var high := DecodeNibble(encoded[2 * index]);
      if high.None? {
        return None;
      }
      var low := DecodeNibble(encoded[2 * index + 1]);
      if low.None? {
        return None;
      }
      ghost var before := bytes[..index];
      bytes[index] := 16 * high.value + low.value;
      assert bytes[..index + 1] == before + [bytes[index]];
      HexPair(encoded, index, before, bytes[index]);
    }
    assert encoded[..64] == encoded && bytes[..32] == bytes[..];
    return Some(bytes[..]);
  }

  /** The value is the digest's display form, or the result says which part of it is wrong. */
  method ParseDigest(value: Bytes) returns (result: ParseResult)
    ensures result.InvalidPrefix? <==> !(DIGEST_PREFIX <= value)
    ensures result.InvalidLength? <==> DIGEST_PREFIX <= value && |value| != |DIGEST_PREFIX| + 64
    ensures result.InvalidEncoding? <==>
            && DIGEST_PREFIX <= value && |value| == |DIGEST_PREFIX| + 64
            && exists i | |DIGEST_PREFIX| <= i < |value| :: DecodeNibble(value[i]).None?
    ensures result.Parsed? ==> value == Display(result.digest)
  {
    if !(DIGEST_PREFIX <= value) {
      return InvalidPrefix;
    }
    var encoded := Rest(DIGEST_PREFIX, value);
    if |encoded| != 64 {
      return InvalidLength;
    }
    assert forall i | 0 <= i < 64 :: value[|DIGEST_PREFIX| + i] == encoded[i];
    assert forall i | |DIGEST_PREFIX| <= i < |value| :: value[i] == encoded[i - |DIGEST_PREFIX|];
    var digest := DecodeHex(encoded);
    return if digest.None? then InvalidEncoding else Parsed(digest.value);
  }

  lemma HexPair(encoded: Bytes, index: nat, before: Bytes, last: u8)
    requires 2 * index + 1 < |encoded| && encoded[..2 * index] == Hex(before)
    requires encoded[2 * index] == Nibble(last / 16) && encoded[2 * index + 1] == Nibble(last % 16)
    ensures encoded[..2 * (index + 1)] == Hex(before + [last])
  {
    HexAppend(before, last);
    assert encoded[..2 * (index + 1)] == encoded[..2 * index] + [encoded[2 * index], encoded[2 * index + 1]];
  }

  lemma {:induction false} HexAppend(bytes: Bytes, last: u8)
    ensures Hex(bytes + [last]) == Hex(bytes) + [Nibble(last / 16), Nibble(last % 16)]
  {
    if bytes == [] {
      assert [last][1..] == [];
      assert Hex([last]) == [Nibble(last / 16), Nibble(last % 16)] + Hex([]);
    } else {
      assert (bytes + [last])[1..] == bytes[1..] + [last];
      HexAppend(bytes[1..], last);
    }
  }

  lemma {:induction false} HexIsInjective(left: Bytes, right: Bytes)
    requires Hex(left) == Hex(right)
    ensures left == right
  {
    if left != [] {
      assert Hex(left)[..2] == Hex(right)[..2] && Hex(left)[2..] == Hex(right)[2..];
      assert Hex(left)[0] == Hex(right)[0] && Hex(left)[1] == Hex(right)[1];
      HexIsInjective(left[1..], right[1..]);
      assert left == [left[0]] + left[1..] && right == [right[0]] + right[1..];
    }
  }

  lemma {:induction false} HexDecodes(bytes: Bytes, i: nat)
    requires i < 2 * |bytes|
    ensures DecodeNibble(Hex(bytes)[i]).Some?
    ensures Hex(bytes)[i] != SLASH && Hex(bytes)[i] != DOT
  {
    if i >= 2 {
      HexDecodes(bytes[1..], i - 2);
    }
  }

  /** The display form is injective and passes every check that parsing makes, so parsing inverts it. */
  lemma DisplayParses(left: Digest, right: Digest)
    ensures Display(left) == Display(right) <==> left == right
    ensures DIGEST_PREFIX <= Display(left) && |Display(left)| == |DIGEST_PREFIX| + 64
    ensures forall i | |DIGEST_PREFIX| <= i < |Display(left)| :: DecodeNibble(Display(left)[i]).Some?
  {
    forall i | |DIGEST_PREFIX| <= i < |Display(left)| ensures DecodeNibble(Display(left)[i]).Some? {
      HexDecodes(left, i - |DIGEST_PREFIX|);
    }
    if Display(left) == Display(right) {
      SplitFixed(DIGEST_PREFIX, DIGEST_PREFIX, Hex(left), Hex(right));
      HexIsInjective(left, right);
    }
  }
}
