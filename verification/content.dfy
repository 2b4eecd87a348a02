/** The authored content tree, its limits and its portable logical paths. */
module Content {
  import opened Framing
  import opened Ordering

  /** Failures of candidate-store operations; the static message of each variant is dropped. */
  datatype Error =
    | InvalidArchive
    | LimitExceeded
    | DigestMismatch
    | CapacityExceeded
    | UnexpectedEntry
    | Collision
    | Io

  datatype Result<+T> = Ok(value: T) | Err(error: Error) {
    predicate IsFailure() {
      Err?
    }

    function PropagateFailure<U>(): Result<U>
      requires Err?
    {
      Err(error)
    }

    function Extract(): T
      requires Ok?
    {
      value
    }
  }

  datatype Outcome = Pass | Fail(error: Error) {
    predicate IsFailure() {
      Fail?
    }

    function PropagateFailure<U>(): Result<U>
      requires Fail?
    {
      Err(error)
    }
  }

  function Need(condition: bool, error: Error): Outcome {
    if condition then Pass else Fail(error)
  }

  datatype Option<+T> = None | Some(value: T)

  /** Well-formed UTF-8 as section 4 of RFC 3629 defines it. */
  predicate Utf8(s: Bytes) {
    s == [] ||
    if s[0] < 0x80 then
      Utf8(s[1..])
    else if 0xC2 <= s[0] <= 0xDF then
      |s| >= 2 && Tail(s[1]) && Utf8(s[2..])
    else if 0xE0 <= s[0] <= 0xEF then
      && |s| >= 3
      && (if s[0] == 0xE0 then 0xA0 <= s[1] <= 0xBF
          else if s[0] == 0xED then 0x80 <= s[1] <= 0x9F
          else Tail(s[1]))
      && Tail(s[2]) && Utf8(s[3..])
    else
      && 0xF0 <= s[0] <= 0xF4 && |s| >= 4
      && (if s[0] == 0xF0 then 0x90 <= s[1] <= 0xBF
          else if s[0] == 0xF4 then 0x80 <= s[1] <= 0x8F
          else Tail(s[1]))
      && Tail(s[2]) && Tail(s[3]) && Utf8(s[4..])
  }

  predicate Tail(b: u8) {
    0x80 <= b <= 0xBF
  }

  /** A Rust string: bytes that are valid UTF-8. */
  type Str = s: Bytes | Utf8(s)

  /** ASCII lower case. */
  function Lowercase(s: Bytes): (lower: Bytes)
    ensures |lower| == |s|
  {
    seq(|s|, i requires 0 <= i < |s| => LowerByte(s[i]))
  }

  function LowerByte(b: u8): u8 {
    if 65 <= b <= 90 then b + 32 else b
  }

  function Ascii(text: string): Bytes {
    seq(|text|, i requires 0 <= i < |text| => (text[i] as int) % 128)
  }

  const SLASH: u8 := 47
  const BACKSLASH: u8 := 92
  const PERCENT: u8 := 37
  const DOT: u8 := 46

  datatype Collection = Posts | Drafts {
    function Tag(): u8 {
      if Posts? then 0 else 1
    }

    function Directory(): Bytes {
      if Posts? then Ascii("posts") else Ascii("drafts")
    }

    predicate ContainsPath(path: Bytes) {
      Directory() + [SLASH] < path
    }
  }

  datatype Publication = Publication(path: Str, source: Str)
  datatype Post = Post(path: Str, collection: Collection, source: Str)
  datatype Asset = Asset(path: Str, bytes: Bytes)
  datatype Tree = Tree(publication: Publication, posts: seq<Post>, assets: seq<Asset>, totalBytes: u64)

  type FileLimit = n: int | 0 < n < U64_RANGE - 1 witness 1
  type UsizeLimit = n: int | 0 < n < U64_RANGE witness 1

  datatype Limits = Limits(
    publicationFileBytes: FileLimit,
    postFileBytes: FileLimit,
    assetFileBytes: FileLimit,
    totalTreeBytes: FileLimit,
    entries: UsizeLimit,
    depth: UsizeLimit,
    pathBytes: UsizeLimit)

  /** `split('/')`: the pieces between separators, one more than there are separators. */
  function Components(path: Bytes): (pieces: seq<Bytes>)
    ensures |pieces| >= 1
  {
    if path == [] then [[]]
    else
      var rest := Components(path[1..]);
      if path[0] == SLASH then [[]] + rest else [[path[0]] + rest[0]] + rest[1..]
  }

  predicate PortableByte(b: u8) {
    48 <= b <= 57 || 65 <= b <= 90 || 97 <= b <= 122 || b == 45 || b == 95 || b == DOT
  }

  predicate PortableComponent(component: Bytes) {
    component != [] && component != [DOT] && component != [DOT, DOT] && forall b | b in component :: PortableByte(b)
  }

  predicate PortablePath(path: Bytes) {
    && path != []
    && path[0] != SLASH && path[0] != BACKSLASH
    && PERCENT !in path && BACKSLASH !in path
    && forall component | component in Components(path) :: PortableComponent(component)
  }

  predicate AssetNamespace(path: Bytes) {
    var pieces := Components(path);
    |pieces| >= 2 && pieces[0] == Ascii("assets")
  }

  function ValidatePortablePath(path: Bytes, limits: Limits): Outcome {
    if path == [] then Fail(InvalidArchive)
    else if |path| > limits.pathBytes then Fail(LimitExceeded)
    else if !PortablePath(path) then Fail(InvalidArchive)
    else if |Components(path)| > limits.depth then Fail(LimitExceeded)
    else Pass
  }

  function AndThen(first: Outcome, second: Outcome): Outcome {
    if first.Pass? then second else first
  }

  function ValidatePublicationPath(path: Bytes, limits: Limits): Outcome {
    AndThen(ValidatePortablePath(path, limits), Need(path == Ascii("publication.toml"), InvalidArchive))
  }

  function ValidatePostPath(path: Bytes, collection: Collection, limits: Limits): Outcome {
    AndThen(ValidatePortablePath(path, limits),
            Need(collection.ContainsPath(path) && EndsWith(path, Ascii(".md")), InvalidArchive))
  }

  function ValidateAssetPath(path: Bytes, limits: Limits): Outcome {
    AndThen(ValidatePortablePath(path, limits), Need(AssetNamespace(path), InvalidArchive))
  }

  predicate EndsWith(path: Bytes, suffix: Bytes) {
    |suffix| <= |path| && path[|path| - |suffix|..] == suffix
  }

  function EnsureFileSize(length: nat, limit: FileLimit): Outcome {
    Need(length < U64_RANGE && length <= limit, LimitExceeded)
  }

  /** Checked addition of one file to the running byte count of a tree. */
  function AddTotal(total: nat, length: nat, limits: Limits): Result<nat> {
    if length >= U64_RANGE || total + length >= U64_RANGE || total + length > limits.totalTreeBytes then
      Err(LimitExceeded)
    else
      Ok(total + length)
  }

  /** The order shared by tree digests and archives: path, collection tag, source. */
  predicate PostLeq(left: Post, right: Post) {
    if left.path != right.path then LexLeq(left.path, right.path)
    else if left.collection != right.collection then left.collection.Tag() < right.collection.Tag()
    else LexLeq(left.source, right.source)
  }

  predicate AssetLeq(left: Asset, right: Asset) {
    if left.path != right.path then LexLeq(left.path, right.path)
    else LexLeq(left.bytes, right.bytes)
  }

  lemma PostOrder()
    ensures TotalPreorder(PostLeq) && Antisymmetric(PostLeq)
  {
    LexIsTotalOrder();
    forall x, y, z | PostLeq(x, y) && PostLeq(y, z) ensures PostLeq(x, z) {
      if x.path == z.path && y.path != x.path {
        LexAntisymmetric(x.path, y.path);
      }
    }
  }

  lemma AssetOrder()
    ensures TotalPreorder(AssetLeq) && Antisymmetric(AssetLeq)
  {
    LexIsTotalOrder();
    forall x, y, z | AssetLeq(x, y) && AssetLeq(y, z) ensures AssetLeq(x, z) {
      if x.path == z.path && y.path != x.path {
        LexAntisymmetric(x.path, y.path);
      }
    }
  }

  /** The tree with posts and assets in canonical order. */
  function Canonical(tree: Tree): Tree {
    tree.(posts := Sort(PostLeq, tree.posts), assets := Sort(AssetLeq, tree.assets))
  }

  lemma CanonicalUnique(left: Tree, right: Tree)
    requires multiset(left.posts) == multiset(right.posts) && multiset(left.assets) == multiset(right.assets)
    ensures Canonical(left).posts == Canonical(right).posts
    ensures Canonical(left).assets == Canonical(right).assets
  {
    PostOrder();
    AssetOrder();
    SortIsCanonical(PostLeq, left.posts, right.posts);
    SortIsCanonical(AssetLeq, left.assets, right.assets);
  }

  lemma CanonicalIdempotent(tree: Tree)
    ensures Canonical(Canonical(tree)) == Canonical(tree)
    ensures multiset(Canonical(tree).posts) == multiset(tree.posts)
    ensures multiset(Canonical(tree).assets) == multiset(tree.assets)
  {
    SortPermutes(PostLeq, tree.posts);
    SortPermutes(AssetLeq, tree.assets);
    CanonicalUnique(Canonical(tree), tree);
  }

  /** Equality of two trees up to the order of posts and assets. */
  predicate CanonicallyEqual(left: Tree, right: Tree) {
    && left.publication == right.publication
    && left.totalBytes == right.totalBytes
    && |left.posts| == |right.posts|
    && |left.assets| == |right.assets|
    && Canonical(left).posts == Canonical(right).posts
    && Canonical(left).assets == Canonical(right).assets
  }

  /** Canonical equality is equality of the unordered tree. */
  lemma CanonicallyEqualIsUnordered(left: Tree, right: Tree)
    ensures CanonicallyEqual(left, right) <==>
            && left.publication == right.publication && left.totalBytes == right.totalBytes
            && multiset(left.posts) == multiset(right.posts) && multiset(left.assets) == multiset(right.assets)
    ensures CanonicallyEqual(left, right) <==> Canonical(left) == Canonical(right)
  {
    CanonicalIdempotent(left);
    CanonicalIdempotent(right);
    SortPermutes(PostLeq, left.posts);
    SortPermutes(PostLeq, right.posts);
    SortPermutes(AssetLeq, left.assets);
    SortPermutes(AssetLeq, right.assets);
    if multiset(left.posts) == multiset(right.posts) && multiset(left.assets) == multiset(right.assets) {
      CanonicalUnique(left, right);
      SameMembers(left.posts, right.posts);
      SameMembers(left.assets, right.assets);
    }
  }
}
