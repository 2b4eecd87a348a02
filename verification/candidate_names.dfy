/** File names of the candidate store: candidates under their digest, and staging files. */
module CandidateNames {
  import opened Framing
  import opened Content
  import opened Transcripts
  import opened TreeDigests

  const CANDIDATE_SUFFIX: Bytes := Ascii(".candidate")
  const STAGING_PREFIX: Bytes := Ascii(".candidate-stage-")
  const STAGING_SUFFIX: Bytes := Ascii(".tmp")
  const HYPHEN: u8 := 45

  function CandidateName(digest: Digest): Bytes {
    Display(digest) + CANDIDATE_SUFFIX
  }

  function UnHex(text: Bytes): (bytes: Option<Bytes>)
    requires |text| % 2 == 0
    ensures bytes.Some? ==> 2 * |bytes.value| == |text|
  {
    if text == [] then Some([])
    else
      var head, tail := DecodePair(text[0], text[1]), UnHex(text[2..]);
      if head.Some? && tail.Some? then Some([head.value] + tail.value) else None
  }

  function StripPrefix(name: Bytes, prefix: Bytes): Option<Bytes> {
    if prefix <= name then Some(name[|prefix|..]) else None
  }

  function StripSuffix(name: Bytes, suffix: Bytes): Option<Bytes> {
    if EndsWith(name, suffix) then Some(name[..|name| - |suffix|]) else None
  }

  function ParseCandidateName(name: Bytes): Option<Digest> {
    var rest := StripPrefix(name, DIGEST_PREFIX);
    if rest.None? then None
    else
      var text := StripSuffix(rest.value, CANDIDATE_SUFFIX);
      if text.None? || |text.value| != 64 then None else UnHex(text.value)
  }

  predicate IsCandidateName(name: Bytes) {
    ParseCandidateName(name).Some?
  }

  predicate HexAt(text: Bytes, i: nat)
    requires i < |text|
  {
    DecodeNibble(text[i]).Some?
  }

  /** A canonical lowercase hyphenated UUID, the only text that parses and prints back to itself. */
  predicate CanonicalUuid(text: Bytes) {
    && |text| == 36
    && forall i | 0 <= i < 36 :: if i in {8, 13, 18, 23} then text[i] == HYPHEN else HexAt(text, i)
  }

  predicate IsStagingName(name: Bytes) {
    var rest := StripPrefix(name, STAGING_PREFIX);
    rest.Some? && var text := StripSuffix(rest.value, STAGING_SUFFIX); text.Some? && CanonicalUuid(text.value)
  }

  lemma {:induction false} UnHexIff(text: Bytes, bytes: Bytes)
    requires |text| % 2 == 0
    ensures UnHex(text) == Some(bytes) <==> text == Hex(bytes)
  {
    if text != [] {
      if bytes != [] {
        UnHexIff(text[2..], bytes[1..]);
        assert Hex(bytes)[2..] == Hex(bytes[1..]);
        assert text == [text[0], text[1]] + text[2..];
        assert bytes == [bytes[0]] + bytes[1..];
        NibblesIff(text[0], text[1], bytes[0]);
        assert Hex(bytes)[0] == Nibble(bytes[0] / 16) && Hex(bytes)[1] == Nibble(bytes[0] % 16);
      }
    }
  }

  lemma NibblesIff(high: u8, low: u8, b: u8)
    ensures DecodePair(high, low) == Some(b) <==> high == Nibble(b / 16) && low == Nibble(b % 16)
  {
  }

  /** A name parses to a digest exactly when it is the name that digest is stored under. */
  lemma ParsesExactlyCandidateNames(name: Bytes, digest: Digest)
    ensures ParseCandidateName(name) == Some(digest) <==> name == CandidateName(digest)
  {
    var hex := Hex(digest);
    if name == CandidateName(digest) {
      assert name == DIGEST_PREFIX + (hex + CANDIDATE_SUFFIX);
      assert name[|DIGEST_PREFIX|..] == hex + CANDIDATE_SUFFIX;
      assert (hex + CANDIDATE_SUFFIX)[..|hex|] == hex;
      assert (hex + CANDIDATE_SUFFIX)[|hex|..] == CANDIDATE_SUFFIX;
      UnHexIff(hex, digest);
    }
    if ParseCandidateName(name) == Some(digest) {
      var rest := name[|DIGEST_PREFIX|..];
      var text := rest[..|rest| - |CANDIDATE_SUFFIX|];
      UnHexIff(text, digest);
      assert rest == text + CANDIDATE_SUFFIX;
      assert name == DIGEST_PREFIX + rest;
    }
  }

  /** Distinct digests have distinct names. */
  lemma CandidateNamesAreInjective(left: Digest, right: Digest)
    requires CandidateName(left) == CandidateName(right)
    ensures left == right
  {
    ParsesExactlyCandidateNames(CandidateName(left), left);
    ParsesExactlyCandidateNames(CandidateName(left), right);
  }

  /** A staging file is never mistaken for a candidate. */
  lemma StagingNamesAreNotCandidates(name: Bytes, digest: Digest)
    requires IsStagingName(name)
    ensures name != CandidateName(digest)
  {
    Initials();
    assert name[0] == STAGING_PREFIX[0];
    assert CandidateName(digest)[0] == DIGEST_PREFIX[0];
  }

  lemma Initials()
    ensures |STAGING_PREFIX| > 0 && |DIGEST_PREFIX| > 0 && STAGING_PREFIX[0] != DIGEST_PREFIX[0]
  {
    assert ".candidate-stage-"[0] == '.' && "content-b3-v1-"[0] == 'c';
  }
}
