/** Big-endian integers, length framing, and prefix-free codes.

    Every binary format of the compiler (tree digests, revision identities,
    candidate archives) is a concatenation of the primitives below.  A code is
    prefix-free when no code word is a prefix of another one; concatenations of
    prefix-free codes can be read back in only one way.
  */
module Framing {
  type u8 = b: int | 0 <= b < 256
  type Bytes = seq<u8>

  const U32_RANGE := 0x1_0000_0000
  const U64_RANGE := 0x1_0000_0000_0000_0000
  const U128_RANGE := 0x1_0000_0000_0000_0000_0000_0000_0000_0000

  type u64 = v: int | 0 <= v < U64_RANGE

  /** `value.to_be_bytes()` of an unsigned integer of `width` bytes; wider values are truncated. */
  function BigEndian(width: nat, value: nat): (bytes: Bytes)
    ensures |bytes| == width
  {
    if width == 0 then [] else BigEndian(width - 1, value / 256) + [value % 256]
  }

  /** `from_be_bytes` over any number of bytes. */
  function FromBigEndian(bytes: Bytes): nat {
    if bytes == [] then 0 else 256 * FromBigEndian(bytes[..|bytes| - 1]) + bytes[|bytes| - 1]
  }

  function Range(width: nat): (range: nat)
    ensures range > 0
  {
    if width == 0 then 1 else 256 * Range(width - 1)
  }

  lemma RangeOfWidths()
    ensures Range(1) == 256
    ensures Range(2) == 0x1_0000
    ensures Range(4) == U32_RANGE
    ensures Range(8) == U64_RANGE
  {
    assert Range(2) == 0x1_0000;
    assert Range(3) == 256 * Range(2);
    assert Range(4) == 256 * Range(3);
    assert Range(5) == 256 * Range(4);
    assert Range(6) == 256 * Range(5);
    assert Range(7) == 256 * Range(6);
    assert Range(8) == 256 * Range(7);
  }

  lemma {:induction false} BigEndianRoundTrip(width: nat, value: nat)
    requires value < Range(width)
    ensures FromBigEndian(BigEndian(width, value)) == value
  {
    if width > 0 {
      BigEndianRoundTrip(width - 1, value / 256);
      var bytes := BigEndian(width, value);
      assert bytes[..|bytes| - 1] == BigEndian(width - 1, value / 256);
    }
  }

  lemma {:induction false} FromBigEndianRoundTrip(bytes: Bytes)
    ensures FromBigEndian(bytes) < Range(|bytes|)
    ensures BigEndian(|bytes|, FromBigEndian(bytes)) == bytes
  {
    if bytes != [] {
      var high, low := bytes[..|bytes| - 1], bytes[|bytes| - 1];
      FromBigEndianRoundTrip(high);
      var value := 256 * FromBigEndian(high) + low;
      assert value / 256 == FromBigEndian(high) && value % 256 == low;
      assert bytes == high + [low];
    }
  }

  function U32(value: nat): (bytes: Bytes)
    ensures |bytes| == 4
  {
    BigEndian(4, value)
  }

  function U64(value: nat): (bytes: Bytes)
    ensures |bytes| == 8
  {
    BigEndian(8, value)
  }

  lemma U32RoundTrip(value: nat)
    requires value < U32_RANGE
    ensures FromBigEndian(U32(value)) == value
  {
    RangeOfWidths();
    BigEndianRoundTrip(4, value);
  }

  lemma U64RoundTrip(value: nat)
    requires value < U64_RANGE
    ensures FromBigEndian(U64(value)) == value
  {
    RangeOfWidths();
    BigEndianRoundTrip(8, value);
  }

  lemma FromU32RoundTrip(bytes: Bytes)
    requires |bytes| == 4
    ensures FromBigEndian(bytes) < U32_RANGE
    ensures U32(FromBigEndian(bytes)) == bytes
  {
    RangeOfWidths();
    FromBigEndianRoundTrip(bytes);
  }

  lemma FromU64RoundTrip(bytes: Bytes)
    requires |bytes| == 8
    ensures FromBigEndian(bytes) < U64_RANGE
    ensures U64(FromBigEndian(bytes)) == bytes
  {
    RangeOfWidths();
    FromBigEndianRoundTrip(bytes);
  }

  /** A byte string behind its eight-byte length. */
  function Frame(bytes: Bytes): Bytes {
    U64(|bytes|) + bytes
  }

  ghost predicate Sized(bytes: Bytes) {
    |bytes| < U64_RANGE
  }

  lemma Associate(a: Bytes, b: Bytes, c: Bytes)
    ensures (a + b) + c == a + (b + c)
  {
  }

  lemma Associate4(a: Bytes, b: Bytes, c: Bytes, d: Bytes)
    ensures ((a + b) + c) + d == a + (b + (c + d))
  {
    Associate(a + b, c, d);
    Associate(a, b, c + d);
  }

  /** Equal concatenations of equally long heads split the same way. */
  lemma SplitFixed(a: Bytes, b: Bytes, s: Bytes, t: Bytes)
    requires |a| == |b| && a + s == b + t
    ensures a == b && s == t
  {
    assert a == (a + s)[..|a|] && b == (b + t)[..|b|];
    assert s == (a + s)[|a|..] && t == (b + t)[|b|..];
  }

  /** What is left of `whole` behind its prefix `part`. */
  function Rest(part: Bytes, whole: Bytes): (rest: Bytes)
    requires part <= whole
    ensures whole == part + rest
  {
    whole[|part|..]
  }

  lemma FrameSplit(a: Bytes, b: Bytes, s: Bytes, t: Bytes)
    requires Sized(a) && Sized(b) && Frame(a) + s == Frame(b) + t
    ensures a == b && s == t
  {
    assert U64(|a|) + (a + s) == Frame(a) + s;
    assert U64(|b|) + (b + t) == Frame(b) + t;
    SplitFixed(U64(|a|), U64(|b|), a + s, b + t);
    U64RoundTrip(|a|);
    U64RoundTrip(|b|);
    SplitFixed(a, b, s, t);
  }

  lemma U64Split(m: nat, n: nat, s: Bytes, t: Bytes)
    requires m < U64_RANGE && n < U64_RANGE && U64(m) + s == U64(n) + t
    ensures m == n && s == t
  {
    SplitFixed(U64(m), U64(n), s, t);
    U64RoundTrip(m);
    U64RoundTrip(n);
  }

  /** No code word of a value accepted by `ok` is a prefix of the code word of another one. */
  ghost predicate PrefixFree<T(!new)>(code: T -> Bytes, ok: T -> bool) {
    forall x, y | ok(x) && ok(y) && code(x) <= code(y) :: x == y
  }

  lemma CodeSplit<T(!new)>(code: T -> Bytes, ok: T -> bool, x: T, y: T, s: Bytes, t: Bytes)
    requires PrefixFree(code, ok) && ok(x) && ok(y)
    requires code(x) + s == code(y) + t
    ensures x == y && s == t
  {
    var whole := code(x) + s;
    assert code(x) == whole[..|code(x)|] && code(y) == whole[..|code(y)|];
    assert code(x) <= code(y) || code(y) <= code(x);
    assert x == y;
    SplitFixed(code(x), code(y), s, t);
  }

  /** The records of a sequence, one after the other. */
  function Concat<T>(code: T -> Bytes, xs: seq<T>): Bytes {
    if xs == [] then [] else code(xs[0]) + Concat(code, xs[1..])
  }

  lemma {:induction false} ConcatAppend<T>(code: T -> Bytes, xs: seq<T>, y: T)
    ensures Concat(code, xs + [y]) == Concat(code, xs) + code(y)
  {
    if xs == [] {
      assert Concat(code, [y]) == code(y) + Concat(code, []);
      assert [y][1..] == [];
    } else {
      assert (xs + [y])[1..] == xs[1..] + [y];
      ConcatAppend(code, xs[1..], y);
    }
  }

  lemma ConcatTake<T>(code: T -> Bytes, xs: seq<T>, i: nat)
    requires i < |xs|
    ensures Concat(code, xs[..i + 1]) == Concat(code, xs[..i]) + code(xs[i])
  {
    assert xs[..i + 1] == xs[..i] + [xs[i]];
    ConcatAppend(code, xs[..i], xs[i]);
  }

  lemma {:induction false} ConcatSplit<T(!new)>(code: T -> Bytes, ok: T -> bool, xs: seq<T>, ys: seq<T>, s: Bytes,
                                                t: Bytes)
    requires PrefixFree(code, ok)
    requires |xs| == |ys| && (forall x | x in xs :: ok(x)) && (forall y | y in ys :: ok(y))
    requires Concat(code, xs) + s == Concat(code, ys) + t
    ensures xs == ys && s == t
  {
    if xs == [] {
      assert Concat(code, xs) + s == s && Concat(code, ys) + t == t;
    } else {
      assert Concat(code, xs) + s == code(xs[0]) + (Concat(code, xs[1..]) + s);
      assert Concat(code, ys) + t == code(ys[0]) + (Concat(code, ys[1..]) + t);
      CodeSplit(code, ok, xs[0], ys[0], Concat(code, xs[1..]) + s, Concat(code, ys[1..]) + t);
      ConcatSplit(code, ok, xs[1..], ys[1..], s, t);
      assert xs == [xs[0]] + xs[1..] && ys == [ys[0]] + ys[1..];
    }
  }

  /** A sequence behind its eight-byte element count. */
  function Counted<T>(code: T -> Bytes, xs: seq<T>): Bytes {
    U64(|xs|) + Concat(code, xs)
  }

  lemma CountedSplit<T(!new)>(code: T -> Bytes, ok: T -> bool, xs: seq<T>, ys: seq<T>, s: Bytes, t: Bytes)
    requires PrefixFree(code, ok)
    requires |xs| < U64_RANGE && |ys| < U64_RANGE
    requires (forall x | x in xs :: ok(x)) && (forall y | y in ys :: ok(y))
    requires Counted(code, xs) + s == Counted(code, ys) + t
    ensures xs == ys && s == t
  {
    assert Counted(code, xs) + s == U64(|xs|) + (Concat(code, xs) + s);
    assert Counted(code, ys) + t == U64(|ys|) + (Concat(code, ys) + t);
    U64Split(|xs|, |ys|, Concat(code, xs) + s, Concat(code, ys) + t);
    ConcatSplit(code, ok, xs, ys, s, t);
  }
}
