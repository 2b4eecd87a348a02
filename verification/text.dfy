/** Operations on UTF-8 text that the resolver and the frontmatter splitter rely on. */
module Texts {
  import opened Framing
  import opened Content

  const LF: u8 := 10
  const CR: u8 := 13
  const COLON: u8 := 58
  const AT: u8 := 64

  /** The length of the white-space character that `s` begins with, 0 when it begins with another one. */
  function WhitespaceLength(s: Bytes): nat {
    if |s| >= 1 && (9 <= s[0] <= 13 || s[0] == 32) then 1
    else if |s| >= 2 && s[0] == 0xC2 && (s[1] == 0x85 || s[1] == 0xA0) then 2
    else if |s| >= 3 && s[0] == 0xE1 && s[1] == 0x9A && s[2] == 0x80 then 3
    else if |s| >= 3 && s[0] == 0xE2 && s[1] == 0x80 &&
            (0x80 <= s[2] <= 0x8A || s[2] == 0xA8 || s[2] == 0xA9 || s[2] == 0xAF) then 3
    else if |s| >= 3 && s[0] == 0xE2 && s[1] == 0x81 && s[2] == 0x9F then 3
    else if |s| >= 3 && s[0] == 0xE3 && s[1] == 0x80 && s[2] == 0x80 then 3
    else 0
  }

  function TrimStart(s: Bytes): Bytes {
    var n := WhitespaceLength(s);
    if n == 0 then s else TrimStart(s[n..])
  }

  predicate EndsInWhitespace(s: Bytes, n: nat) {
    0 < n <= |s| && WhitespaceLength(s[|s| - n..]) == n
  }

  function TrimEnd(s: Bytes): Bytes {
    if EndsInWhitespace(s, 1) then TrimEnd(s[..|s| - 1])
    else if EndsInWhitespace(s, 2) then TrimEnd(s[..|s| - 2])
    else if EndsInWhitespace(s, 3) then TrimEnd(s[..|s| - 3])
    else s
  }

  /** `str::trim`. */
  function Trim(s: Bytes): Bytes {
    TrimEnd(TrimStart(s))
  }

  predicate Contains(s: Bytes, needle: Bytes) {
    exists i | 0 <= i <= |s| :: needle <= s[i..]
  }

  /** The position of the first byte of `stops`, or the length of the text. */
  function IndexOf(s: Bytes, stops: set<u8>): (i: nat)
    ensures i <= |s|
    ensures forall k | 0 <= k < i :: s[k] !in stops
    ensures i < |s| ==> s[i] in stops
  {
    if s == [] || s[0] in stops then 0 else 1 + IndexOf(s[1..], stops)
  }

  /** The position of the first `b`, or the length of the text. */
  function Find(s: Bytes, b: u8): (i: nat)
    ensures i <= |s|
  {
    if s == [] || s[0] == b then 0 else 1 + Find(s[1..], b)
  }

  lemma {:induction false} FindIsFirst(s: Bytes, b: u8)
    ensures forall k | 0 <= k < Find(s, b) :: s[k] != b
    ensures Find(s, b) < |s| ==> s[Find(s, b)] == b
  {
    if s != [] && s[0] != b {
      FindIsFirst(s[1..], b);
      assert forall k | 1 <= k < |s| :: s[k] == s[1..][k - 1];
    }
  }

  function SplitOnce(s: Bytes, separator: Bytes): (r: Option<(Bytes, Bytes)>)
    ensures r.Some? ==> s == r.value.0 + separator + r.value.1
  {
    if separator <= s then Some(([], s[|separator|..]))
    else if s == [] then None
    else
      var rest := SplitOnce(s[1..], separator);
      if rest.None? then None else Some(([s[0]] + rest.value.0, rest.value.1))
  }

  /** What follows the last occurrence of a byte, or the whole text. */
  function AfterLast(s: Bytes, b: u8): (rest: Bytes)
    ensures b !in rest
    decreases |s|
  {
    if b !in s then s else AfterLast(s[IndexOf(s, {b}) + 1..], b)
  }

  function Pieces(s: Bytes, separators: set<u8>): (pieces: seq<Bytes>)
    ensures |pieces| >= 1
  {
    if s == [] then [[]]
    else
      var rest := Pieces(s[1..], separators);
      if s[0] in separators then [[]] + rest else [[s[0]] + rest[0]] + rest[1..]
  }
}
