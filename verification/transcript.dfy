/** The framed transcripts that every versioned identity hashes. */
module Transcripts {
  import opened Framing
  import opened Content

  type Digest = d: Bytes | |d| == 32 witness seq(32, i => 0)

  /** BLAKE3 in key-derivation mode: any function of the context string and the transcript bytes. */
  type Hash = (string, Bytes) -> Digest

  function Header(kind: Bytes, version: nat): Bytes {
    Frame(kind) + BigEndian(2, version)
  }

  /** The bytes `i64::to_be_bytes` and `i32::to_be_bytes` produce for a signed value. */
  function I64(value: int): (bytes: Bytes)
    ensures |bytes| == 8
  {
    U64(value % U64_RANGE)
  }

  function I32(value: int): (bytes: Bytes)
    ensures |bytes| == 4
  {
    U32(value % U32_RANGE)
  }

  function Optional<T>(code: T -> Bytes, value: Option<T>): Bytes {
    match value
    case Some(v) => [1] + code(v)
    case None => [0]
  }

  lemma OptionalSplit<T(!new)>(code: T -> Bytes, ok: T -> bool, x: Option<T>, y: Option<T>, s: Bytes, t: Bytes)
    requires PrefixFree(code, ok)
    requires (x.Some? ==> ok(x.value)) && (y.Some? ==> ok(y.value))
    requires Optional(code, x) + s == Optional(code, y) + t
    ensures x == y && s == t
  {
    OptionalParts(code, x, s);
    OptionalParts(code, y, t);
    TagSplit(OptionalTag(x), OptionalTag(y), OptionalPayload(code, x) + s, OptionalPayload(code, y) + t);
    if x.Some? {
      CodeSplit(code, ok, x.value, y.value, s, t);
    }
  }

  lemma OptionalParts<T>(code: T -> Bytes, value: Option<T>, rest: Bytes)
    ensures Optional(code, value) + rest == [OptionalTag(value)] + (OptionalPayload(code, value) + rest)
    ensures value.None? ==> OptionalPayload(code, value) + rest == rest
  {
    assert Optional(code, value) == [OptionalTag(value)] + OptionalPayload(code, value);
    Associate([OptionalTag(value)], OptionalPayload(code, value), rest);
  }

  function OptionalTag<T>(value: Option<T>): u8 {
    if value.Some? then 1 else 0
  }

  function OptionalPayload<T>(code: T -> Bytes, value: Option<T>): Bytes {
    if value.Some? then code(value.value) else []
  }

  lemma TagSplit(m: u8, n: u8, s: Bytes, t: Bytes)
    requires [m] + s == [n] + t
    ensures m == n && s == t
  {
    SplitFixed([m], [n], s, t);
    assert [m][0] == [n][0];
  }

  lemma FramePrefixFree()
    ensures PrefixFree(Frame, Sized)
  {
    forall x, y | Sized(x) && Sized(y) && Frame(x) <= Frame(y) ensures x == y {
      var rest := Frame(y)[|Frame(x)|..];
      assert Frame(x) + rest == Frame(y) + [];
      FrameSplit(x, y, rest, []);
    }
  }

  /** A transcript is fed field by field; `finish` hashes everything fed so far. */
  class Transcript {
    const context: string
    var fed: Bytes

    constructor (context: string, kind: Bytes, version: nat)
      ensures this.context == context && fed == Header(kind, version)
    {
      this.context := context;
      fed := Frame(kind) + BigEndian(2, version);
    }

    method Finish(hash: Hash) returns (digest: Digest)
      ensures digest == hash(context, fed)
    {
      digest := hash(context, fed);
    }

    method FixedBytes(bytes: Bytes)
      modifies this
      ensures fed == old(fed) + bytes
    {
      fed := fed + bytes;
    }

    method FramedBytes(bytes: Bytes)
      modifies this
      ensures fed == old(fed) + Frame(bytes)
    {
      FixedBytes(U64(|bytes|));
      FixedBytes(bytes);
    }

    method SequenceLen(length: nat)
      modifies this
      ensures fed == old(fed) + U64(length)
    {
      FixedBytes(U64(length));
    }

    method PutTag(tag: u8)
      modifies this
      ensures fed == old(fed) + [tag]
    {
      FixedBytes([tag]);
    }
  }
}
