/** Splitting a post into its frontmatter and its body. */
module Frontmatter {
  import opened Framing
  import opened Texts

  datatype Frontmatter =
    | Split(frontmatter: Bytes, body: Bytes)
    | OpeningMissing
    | OpeningMalformed
    | ClosingMissing
    | ClosingMalformed

  function Delimiter(): Bytes {
    [43, 43, 43]
  }

  /** A line that was meant to be a delimiter, however it is padded or continued. */
  predicate LooksLikeDelimiter(line: Bytes) {
    var trimmed := Trim(line);
    Delimiter() <= trimmed || (|trimmed| >= 3 && forall b | b in trimmed :: b == 43)
  }

  // Lines.

  function WithoutLast(s: Bytes, b: u8): Bytes {
    if s != [] && s[|s| - 1] == b then s[..|s| - 1] else s
  }

  /** The text of a line without its LF, CRLF or, at the end of the input, CR. */
  function LineText(raw: Bytes): Bytes {
    WithoutLast(WithoutLast(raw, LF), CR)
  }

  /** The first line of a source with the line feed that ends it. */
  function FirstRaw(s: Bytes): (raw: Bytes)
    requires s != []
    ensures raw != [] && raw <= s
  {
    if Find(s, LF) < |s| then s[..Find(s, LF) + 1] else s
  }

  function RawLines(s: Bytes): seq<Bytes> {
    if s == [] then [] else [FirstRaw(s)] + RawLines(s[|FirstRaw(s)|..])
  }

  function Join(lines: seq<Bytes>): Bytes {
    if lines == [] then [] else lines[0] + Join(lines[1..])
  }

  predicate Terminated(line: Bytes) {
    line != [] && line[|line| - 1] == LF && LF !in line[..|line| - 1]
  }

  lemma FirstRawTerminates(s: Bytes)
    requires s != []
    ensures Terminated(FirstRaw(s)) || FirstRaw(s) == s
  {
    FindIsFirst(s, LF);
  }

  lemma {:induction false} JoinOfLines(s: Bytes)
    ensures Join(RawLines(s)) == s
    ensures forall i | 0 <= i < |RawLines(s)| - 1 :: Terminated(RawLines(s)[i])
    ensures s != [] ==> RawLines(s) != []
  {
    if s != [] {
      var raw := FirstRaw(s);
      FirstRawTerminates(s);
      JoinOfLines(s[|raw|..]);
      assert s == raw + s[|raw|..];
    }
  }

  lemma {:induction false} JoinConcat(xs: seq<Bytes>, ys: seq<Bytes>)
    ensures Join(xs + ys) == Join(xs) + Join(ys)
  {
    if xs == [] {
      assert xs + ys == ys;
    } else {
      JoinConcat(xs[1..], ys);
      assert (xs + ys)[1..] == xs[1..] + ys;
      Associate(xs[0], Join(xs[1..]), Join(ys));
    }
  }

  lemma FirstRawOf(line: Bytes, tail: Bytes)
    requires Terminated(line)
    ensures FirstRaw(line + tail) == line
  {
    var s, n := line + tail, |line| - 1;
    assert s[n] == LF && forall k | 0 <= k < n :: s[k] == line[..n][k];
    FindIsFirst(s, LF);
    assert Find(s, LF) == n;
    assert s[..n + 1] == line;
  }

  lemma FirstLine(line: Bytes, tail: Bytes)
    requires Terminated(line)
    ensures RawLines(line + tail) == [line] + RawLines(tail)
  {
    FirstRawOf(line, tail);
    assert (line + tail)[|line|..] == tail;
  }

  lemma HeadAndTail<T>(xs: seq<T>, ys: seq<T>)
    requires xs != []
    ensures xs + ys == [xs[0]] + (xs[1..] + ys)
  {
  }

  /** Terminated lines in front of a source are its first lines. */
  lemma {:induction false} LinesOfJoin(lines: seq<Bytes>, rest: Bytes)
    requires forall i | 0 <= i < |lines| :: Terminated(lines[i])
    ensures RawLines(Join(lines) + rest) == lines + RawLines(rest)
  {
    if lines == [] {
      assert Join(lines) + rest == rest;
    } else {
      LinesOfJoin(lines[1..], rest);
      FirstLine(lines[0], Join(lines[1..]) + rest);
      Associate(lines[0], Join(lines[1..]), rest);
      HeadAndTail(lines, RawLines(rest));
    }
  }

  lemma StripEnd(contents: Bytes, start: nat, end: nat, b: u8)
    requires start <= end <= |contents|
    ensures contents[start..if end > start && contents[end - 1] == b then end - 1 else end]
            == WithoutLast(contents[start..end], b)
  {
  }

  /** One line from `start` on, without its terminator, and where the next one begins. */
  method NextLine(contents: Bytes, start: nat) returns (line: Bytes, next: nat)
    requires start <= |contents|
    ensures start == |contents| ==> line == [] && next == start
    ensures start < |contents| ==>
              && start < next <= |contents| && contents[start..next] == FirstRaw(contents[start..])
              && line == LineText(contents[start..next])
  {
    var rest := contents[start..];
    var i := Find(rest, LF);
    next := if i < |rest| then start + i + 1 else |contents|;
    assert start < |contents| ==> contents[start..next] == FirstRaw(rest);
    line := Strip(contents, start, next);
  }

  /** Drops a line feed at the end, and then a carriage return. */
  method Strip(contents: Bytes, start: nat, next: nat) returns (line: Bytes)
    requires start <= next <= |contents|
    ensures line == LineText(contents[start..next])
  {
    var end := next;
    if end > start && contents[end - 1] == LF {
      end := end - 1;
    }
    StripEnd(contents, start, next, LF);
    StripEnd(contents, start, end, CR);
    if end > start && contents[end - 1] == CR {
      end := end - 1;
    }
    line := contents[start..end];
  }

  lemma LinesFrom(contents: Bytes, start: nat, next: nat)
    requires start < next <= |contents| && contents[start..next] == FirstRaw(contents[start..])
    ensures RawLines(contents[start..]) == [contents[start..next]] + RawLines(contents[next..])
  {
    assert contents[start..][next - start..] == contents[next..];
  }

  // The split, stated over lines.

  /** The first position from `k` on where `p` holds, or the length. */
  function First<T>(p: T -> bool, xs: seq<T>, k: nat): (j: nat)
    requires k <= |xs|
    ensures k <= j <= |xs|
    ensures forall i | k <= i < j :: !p(xs[i])
    ensures j < |xs| ==> p(xs[j])
    decreases |xs| - k
  {
    if k == |xs| || p(xs[k]) then k else First(p, xs, k + 1)
  }

  lemma FirstIs<T>(p: T -> bool, xs: seq<T>, k: nat, j: nat)
    requires k <= j < |xs| && p(xs[j]) && forall i | k <= i < j :: !p(xs[i])
    ensures First(p, xs, k) == j
  {
  }

  predicate DelimiterLike(raw: Bytes) {
    LooksLikeDelimiter(LineText(raw))
  }

  function SplitLines(lines: seq<Bytes>): Frontmatter {
    if lines == [] then OpeningMissing
    else if LineText(lines[0]) != Delimiter() then
      if DelimiterLike(lines[0]) then OpeningMalformed else OpeningMissing
    else
      var j := First(DelimiterLike, lines, 1);
      if j == |lines| then ClosingMissing
      else if LineText(lines[j]) != Delimiter() then ClosingMalformed
      else Split(Join(lines[1..j]), Join(lines[j + 1..]))
  }

  lemma TrimKeeps(s: Bytes)
    requires WhitespaceLength(s) == 0
    requires !EndsInWhitespace(s, 1) && !EndsInWhitespace(s, 2) && !EndsInWhitespace(s, 3)
    ensures Trim(s) == s
  {
  }

  lemma DelimiterLooksLikeOne(line: Bytes)
    requires line == Delimiter()
    ensures LooksLikeDelimiter(line)
  {
    assert line[|line| - 1..][0] == 43 && line[|line| - 2..][0] == 43 && line[|line| - 3..][0] == 43;
    TrimKeeps(line);
  }

  lemma EmptyLineIsNoDelimiter(line: Bytes)
    requires line == []
    ensures !LooksLikeDelimiter(line)
  {
    TrimKeeps(line);
  }

  /** The lines up to `cursor` and the next one make up the lines up to the end of that one. */
  lemma LineStep(contents: Bytes, start: nat, cursor: nat, next: nat, lines: seq<Bytes>, k: nat)
    requires start <= cursor <= next <= |contents| && 1 <= k < |lines|
    requires contents[start..cursor] == Join(lines[1..k]) && contents[cursor..next] == lines[k]
    ensures contents[start..next] == Join(lines[1..k + 1])
  {
    JoinConcat(lines[1..k], [lines[k]]);
    assert Join([lines[k]]) == lines[k] + Join([]);
    assert lines[1..k + 1] == lines[1..k] + [lines[k]];
    assert contents[start..next] == contents[start..cursor] + contents[cursor..next];
  }

  /** Walks the source line by line behind its opening delimiter. */
  method SplitFrontmatter(contents: Bytes) returns (r: Frontmatter)
    ensures r == SplitLines(RawLines(contents))
  {
    var opening, start := NextLine(contents, 0);
    assert contents[0..] == contents;
    if opening != Delimiter() {
      EmptyLineIsNoDelimiter([]);
      return if LooksLikeDelimiter(opening) then OpeningMalformed else OpeningMissing;
    }
    LinesFrom(contents, 0, start);
    r := FindClosing(contents, start, RawLines(contents));
  }

  method FindClosing(contents: Bytes, start: nat, ghost lines: seq<Bytes>) returns (r: Frontmatter)
    requires start <= |contents| && lines != [] && RawLines(contents[start..]) == lines[1..]
    requires LineText(lines[0]) == Delimiter()
    ensures r == SplitLines(lines)
  {
    var cursor := start;
    ghost var k := 1;
    while cursor < |contents|
      invariant start <= cursor <= |contents| && 1 <= k <= |lines|
      invariant RawLines(contents[cursor..]) == lines[k..] && contents[start..cursor] == Join(lines[1..k])
      invariant First(DelimiterLike, lines, k) == First(DelimiterLike, lines, 1)
    {
      var line, next := NextLine(contents, cursor);
      LinesFrom(contents, cursor, next);
      assert lines[k..][0] == lines[k] && lines[k..][1..] == lines[k + 1..];
      if line == Delimiter() {
        DelimiterLooksLikeOne(line);
        JoinOfLines(contents[next..]);
        return Split(contents[start..cursor], contents[next..]);
      }
      if LooksLikeDelimiter(line) {
        return ClosingMalformed;
      }
      LineStep(contents, start, cursor, next, lines, k);
      cursor := next;
      k := k + 1;
    }
    assert contents[cursor..] == [];
    return ClosingMissing;
  }

  lemma JoinParts(lines: seq<Bytes>, j: nat)
    requires 0 < j < |lines|
    ensures Join(lines) == lines[0] + Join(lines[1..j]) + lines[j] + Join(lines[j + 1..])
  {
    var front, back := lines[..j], lines[j..];
    assert lines == front + back;
    JoinConcat(front, back);
    assert front[1..] == lines[1..j] && back[1..] == lines[j + 1..];
    Associate(lines[0] + Join(lines[1..j]), lines[j], Join(lines[j + 1..]));
  }

  /** Line `j` closes the frontmatter: the lines before it do not look like delimiters, and the
      four parts concatenate to the source. */
  ghost predicate ClosesAt(contents: Bytes, j: nat, frontmatter: Bytes, body: Bytes) {
    var lines := RawLines(contents);
    && 0 < j < |lines| && LineText(lines[0]) == Delimiter() && LineText(lines[j]) == Delimiter()
    && contents == lines[0] + frontmatter + lines[j] + body
    && RawLines(frontmatter) == lines[1..j] && RawLines(body) == lines[j + 1..]
    && forall i | 1 <= i < j :: !DelimiterLike(lines[i])
  }

  lemma TailLines(contents: Bytes, j: nat)
    requires 0 < j < |RawLines(contents)|
    ensures RawLines(Join(RawLines(contents)[1..j])) == RawLines(contents)[1..j]
    ensures RawLines(Join(RawLines(contents)[j + 1..])) == RawLines(contents)[j + 1..]
  {
    var lines := RawLines(contents);
    JoinOfLines(contents);
    LinesOfJoin(lines[1..j], []);
    assert Join(lines[1..j]) + [] == Join(lines[1..j]);
    SuffixLines(contents, j + 1);
  }

  lemma {:induction false} SuffixLines(s: Bytes, k: nat)
    requires k <= |RawLines(s)|
    ensures RawLines(Join(RawLines(s)[k..])) == RawLines(s)[k..]
  {
    JoinOfLines(s);
    if k == 0 {
      assert RawLines(s)[0..] == RawLines(s);
    } else {
      SuffixLines(s[|FirstRaw(s)|..], k - 1);
      assert RawLines(s)[k..] == RawLines(s)[1..][k - 1..];
    }
  }

  /** A split partitions the source into opening line, frontmatter, closing line and body. */
  lemma SplitPartitionsTheSource(contents: Bytes)
    ensures SplitLines(RawLines(contents)).Split? ==>
              exists j ::
                ClosesAt(contents, j, SplitLines(RawLines(contents)).frontmatter, SplitLines(RawLines(contents)).body)
  {
    var lines := RawLines(contents);
    if SplitLines(lines).Split? {
      var j := First(DelimiterLike, lines, 1);
      JoinOfLines(contents);
      JoinParts(lines, j);
      TailLines(contents, j);
      assert ClosesAt(contents, j, Join(lines[1..j]), Join(lines[j + 1..]));
    }
  }

  /** The split is exactly the partition at the first line that looks like a delimiter, when that
      line is one. */
  lemma SplitsExactlyWhereItCloses(contents: Bytes, frontmatter: Bytes, body: Bytes)
    ensures SplitLines(RawLines(contents)) == Split(frontmatter, body) <==>
            exists j :: ClosesAt(contents, j, frontmatter, body)
  {
    SplitPartitionsTheSource(contents);
    if exists j :: ClosesAt(contents, j, frontmatter, body) {
      var j :| ClosesAt(contents, j, frontmatter, body);
      ClosedSourcesSplit(contents, j, frontmatter, body);
    }
  }

  lemma ClosedSourcesSplit(contents: Bytes, j: nat, frontmatter: Bytes, body: Bytes)
    requires ClosesAt(contents, j, frontmatter, body)
    ensures SplitLines(RawLines(contents)) == Split(frontmatter, body)
  {
    JoinOfLines(frontmatter);
    JoinOfLines(body);
    SplitAt(RawLines(contents), j);
  }

  lemma SplitAt(lines: seq<Bytes>, j: nat)
    requires 0 < j < |lines| && LineText(lines[0]) == Delimiter() && LineText(lines[j]) == Delimiter()
    requires forall i | 1 <= i < j :: !DelimiterLike(lines[i])
    ensures SplitLines(lines) == Split(Join(lines[1..j]), Join(lines[j + 1..]))
  {
    DelimiterLooksLikeOne(LineText(lines[j]));
    FirstIs(DelimiterLike, lines, 1, j);
  }

  lemma FinalLine(line: Bytes)
    requires line != [] && LF !in line
    ensures RawLines(line) == [line]
  {
    FindIsFirst(line, LF);
  }

  /** A line of a source in front of `rest`: only the last one may lack its line feed. */
  predicate LineBefore(line: Bytes, rest: Bytes) {
    Terminated(line) || (line != [] && LF !in line && rest == [])
  }

  lemma LinesBehind(line: Bytes, rest: Bytes)
    requires LineBefore(line, rest)
    ensures RawLines(line + rest) == [line] + RawLines(rest)
  {
    if Terminated(line) {
      FirstLine(line, rest);
    } else {
      FinalLine(line);
      assert line + rest == line;
    }
  }

  /** Any frontmatter without a delimiter-like line, between two delimiter lines, splits off exactly,
      whatever the body holds and however the lines end. */
  lemma WrittenPostsSplit(opening: Bytes, lines: seq<Bytes>, closing: Bytes, body: Bytes)
    requires Terminated(opening) && LineText(opening) == Delimiter()
    requires LineBefore(closing, body) && LineText(closing) == Delimiter()
    requires forall i | 0 <= i < |lines| :: Terminated(lines[i]) && !DelimiterLike(lines[i])
    ensures SplitLines(RawLines(opening + Join(lines) + closing + body)) == Split(Join(lines), body)
  {
    var rest := closing + body;
    Associate(opening + Join(lines), closing, body);
    Associate(opening, Join(lines), rest);
    FirstLine(opening, Join(lines) + rest);
    LinesOfJoin(lines, rest);
    LinesBehind(closing, body);
    DelimiterLooksLikeOne(LineText(closing));
    SplitOfLines(opening, lines, closing, RawLines(body));
    JoinOfLines(body);
  }

  lemma Slices<T>(a: T, xs: seq<T>, c: T, ys: seq<T>)
    ensures var all := [a] + (xs + ([c] + ys));
            && |all| == |xs| + 2 + |ys| && all[0] == a && all[|xs| + 1] == c
            && all[1..|xs| + 1] == xs && all[|xs| + 2..] == ys
            && forall i | 1 <= i < |xs| + 1 :: all[i] == xs[i - 1]
  {
  }

  lemma SplitOfLines(opening: Bytes, lines: seq<Bytes>, closing: Bytes, rest: seq<Bytes>)
    requires LineText(opening) == Delimiter() && LineText(closing) == Delimiter() && DelimiterLike(closing)
    requires forall i | 0 <= i < |lines| :: !DelimiterLike(lines[i])
    ensures SplitLines([opening] + (lines + ([closing] + rest))) == Split(Join(lines), Join(rest))
  {
    Slices(opening, lines, closing, rest);
    FirstIs(DelimiterLike, [opening] + (lines + ([closing] + rest)), 1, |lines| + 1);
  }
}
