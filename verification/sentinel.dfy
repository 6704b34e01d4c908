/** Sentinel blocks: a span of text between two marker lines, rendered, found, replaced and removed. */
module Sentinel {
  import opened Text

  const NL: Unit := 0x0a
  const BEGIN_PREFIX: Str := Lit("# viberevert:begin:")
  const END_PREFIX: Str := Lit("# viberevert:end:")

  function BeginLine(id: Str): Str { BEGIN_PREFIX + id }

  function EndLine(id: Str): Str { END_PREFIX + id }

  // ---------------------------------------------------------------- whole lines

  predicate StringAt(h: Str, s: Str, i: nat) { i + |s| <= |h| && h[i..i + |s|] == s }

  /** The whole line that begins at `i` is `line`. */
  predicate LineAt(h: Str, line: Str, i: nat) {
    && StringAt(h, line, i) && (i == 0 || h[i - 1] == NL)
    && (i + |line| == |h| || h[i + |line|] == NL)
  }

  predicate HasLine(h: Str, line: Str) { exists i :: 0 <= i <= |h| && LineAt(h, line, i) }

  /** `indexOf` from a position. */
  function IndexFrom(h: Str, s: Str, from: nat): (r: int)
    ensures r == -1 || (from <= r && StringAt(h, s, r))
    ensures forall k :: from <= k < (if r == -1 then |h| + 1 else r) ==> !StringAt(h, s, k)
    decreases |h| + 1 - from
  {
    if from > |h| then -1 else if StringAt(h, s, from) then from else IndexFrom(h, s, from + 1)
  }

  /** The first whole line equal to `line` at `from` or later, or -1. */
  function FirstLine(h: Str, line: Str, from: nat): (r: int)
    ensures r == -1 || from <= r <= |h|
    decreases |h| + 1 - from
  {
    if from > |h| then -1 else if LineAt(h, line, from) then from else FirstLine(h, line, from + 1)
  }

  ghost predicate NoLineIn(h: Str, line: Str, from: nat, to: nat) { forall k :: from <= k < to ==> !LineAt(h, line, k) }

  lemma {:induction false} FirstLineMeaning(h: Str, line: Str, from: nat)
    ensures var r := FirstLine(h, line, from); if r == -1 then NoLineIn(h, line, from, |h| + 1) else LineAt(h, line, r) && NoLineIn(h, line, from, r)
    decreases |h| + 1 - from
  {
    if from <= |h| && !LineAt(h, line, from) {
      FirstLineMeaning(h, line, from + 1);
    }
  }

  lemma FirstLineIs(h: Str, line: Str, from: nat, i: nat)
    requires from <= i && LineAt(h, line, i) && NoLineIn(h, line, from, i)
    ensures FirstLine(h, line, from) == i
  {
    FirstLineMeaning(h, line, from);
  }

  lemma FirstLineIsNot(h: Str, line: Str, from: nat)
    requires NoLineIn(h, line, from, |h| + 1)
    ensures FirstLine(h, line, from) == -1
  {
    FirstLineMeaning(h, line, from);
  }

  method FindWholeLine(haystack: Str, line: Str, fromIndex: nat) returns (r: int)
    ensures r == FirstLine(haystack, line, fromIndex)
  {
    var searchFrom := fromIndex;
    while searchFrom <= |haystack|
      invariant fromIndex <= searchFrom && NoLineIn(haystack, line, fromIndex, searchFrom)
      decreases |haystack| + 1 - searchFrom
    {
      var idx := IndexFrom(haystack, line, searchFrom);
      if idx < 0 {
        FirstLineIsNot(haystack, line, fromIndex);
        return -1;
      }
      var before := idx == 0 || haystack[idx - 1] == NL;
      var afterIdx := idx + |line|;
      var after := afterIdx == |haystack| || haystack[afterIdx] == NL;
      if before && after {
        FirstLineIs(haystack, line, fromIndex, idx);
        return idx;
      }
      searchFrom := idx + 1;
    }
    FirstLineIsNot(haystack, line, fromIndex);
    return -1;
  }

  // ---------------------------------------------------------------- blocks

  /** The content without its trailing newlines. */
  function Normalized(content: Str): (r: Str)
    ensures r == [] || r[|r| - 1] != NL
    ensures |r| <= |content| && content[..|r|] == r && forall i :: |r| <= i < |content| ==> content[i] == NL
  {
    if content != [] && content[|content| - 1] == NL then Normalized(content[..|content| - 1]) else content
  }

  function Block(begin: Str, end: Str, content: Str): Str {
    begin + [NL] + content + [NL] + end + [NL]
  }

  function Render(id: Str, content: Str): Str { Block(BeginLine(id), EndLine(id), Normalized(content)) }

  /** `slice`, whose bounds are clamped. */
  function Slice(s: Str, i: nat, j: nat): Str {
    if i < j && i < |s| then s[i..if j < |s| then j else |s|] else []
  }

  function WithoutLastNewline(s: Str): Str {
    if s != [] && s[|s| - 1] == NL then s[..|s| - 1] else s
  }

  datatype Found = Nothing | Found(start: nat, end: nat, content: Str)

  /** The block whose begin line stands at `i` and whose end line stands at `j`. */
  function Bounded(h: Str, begin: Str, end: Str, i: nat, j: nat): Found {
    var raw, blockEnd := Slice(h, i + |begin| + 1, j), j + |end|;
    Found(i, if blockEnd < |h| && h[blockEnd] == NL then blockEnd + 1 else blockEnd, WithoutLastNewline(raw))
  }

  function FindBetween(h: Str, begin: Str, end: Str): (r: Found)
    ensures r.Found? ==> r.start <= r.end <= |h|
  {
    FirstLineMeaning(h, begin, 0);
    FirstLineMeaning(h, end, if FirstLine(h, begin, 0) < 0 then 0 else FirstLine(h, begin, 0) + |begin|);
    var beginIdx := FirstLine(h, begin, 0);
    if beginIdx < 0 then Nothing
    else
      var endIdx := FirstLine(h, end, beginIdx + |begin|);
      if endIdx < 0 then Nothing
      else
        Bounded(h, begin, end, beginIdx, endIdx)
  }

  function FindBlock(h: Str, id: Str): Found { FindBetween(h, BeginLine(id), EndLine(id)) }

  datatype Anchor = Append | AfterMarker(marker: Str)

  function InsertBlock(h: Str, begin: Str, end: Str, block: Str, anchor: Anchor): Str {
    match FindBetween(h, begin, end)
    case Found(i, j, _) => h[..i] + block + h[j..]
    case Nothing =>
      var marker := if anchor.AfterMarker? then FirstLine(h, anchor.marker, 0) else -1;
      if marker >= 0 then
        var lineEnd := IndexFrom(h, [NL], marker);
        var at := if lineEnd < 0 then |h| else lineEnd + 1;
        h[..at] + block + h[at..]
      else if h == [] then block
      else if h[|h| - 1] == NL then h + block
      else h + [NL] + block
  }

  /** `replaceOrAppendSentinelBlock`. */
  function ReplaceOrAppend(h: Str, id: Str, content: Str, anchor: Anchor): Str {
    InsertBlock(h, BeginLine(id), EndLine(id), Render(id, content), anchor)
  }

  function InsertBetween(h: Str, begin: Str, end: Str, c: Str, anchor: Anchor): Str {
    InsertBlock(h, begin, end, Block(begin, end, c), anchor)
  }

  function RemoveBetween(h: Str, begin: Str, end: Str): Str {
    match FindBetween(h, begin, end)
    case Nothing => h
    case Found(i, j, _) => h[..i] + h[j..]
  }

  function Remove(h: Str, id: Str): Str { RemoveBetween(h, BeginLine(id), EndLine(id)) }

  // ---------------------------------------------------------------- finding a block that stands in a text

  /** A line of text: not empty, and no newline in it. */
  predicate IsLine(s: Str) { s != [] && NL !in s }

  /** A block with this content stands at `s`; its lines are whole lines. */
  predicate BlockAt(h: Str, s: nat, begin: Str, end: Str, c: Str) {
    var cs := s + |begin| + 1;
    var es := cs + |c| + 1;
    && es + |end| < |h| && (s == 0 || h[s - 1] == NL)
    && StringAt(h, begin, s) && h[cs - 1] == NL && StringAt(h, c, cs) && h[es - 1] == NL && StringAt(h, end, es) && h[es + |end|] == NL
  }

  /** No line of the content is the end line, and the content does not end in a newline. */
  predicate GoodContent(c: Str, end: Str) { !HasLine(c, end) && (c == [] || c[|c| - 1] != NL) }

  lemma UnitOf(h: Str, s: Str, i: nat, k: nat)
    requires StringAt(h, s, i) && k < |s|
    ensures h[i + k] == s[k]
  {
    assert h[i..i + |s|][k] == h[i + k];
  }

  /** A line cannot run over a newline. */
  lemma NoNewlineInside(h: Str, line: Str, i: nat, n: nat)
    requires IsLine(line) && StringAt(h, line, i) && i <= n < i + |line|
    ensures h[n] != NL
  {
    UnitOf(h, line, i, n - i);
  }

  /** Inside a stretch that ends at a newline, whole lines of the text are whole lines of the stretch. */
  lemma LineInside(h: Str, c: Str, cs: nat, line: Str, i: nat)
    requires IsLine(line) && StringAt(h, c, cs) && cs + |c| < |h| && h[cs + |c|] == NL && cs <= i <= cs + |c|
    requires LineAt(h, line, i)
    ensures LineAt(c, line, i - cs)
  {
    var k := i - cs;
    if i + |line| > cs + |c| {
      NoNewlineInside(h, line, i, cs + |c|);
    }
    forall n: nat | n < |line| ensures c[k + n] == line[n] {
      UnitOf(h, line, i, n);
      UnitOf(h, c, cs, k + n);
    }
    assert c[k..k + |line|] == line;
    if k > 0 {
      UnitOf(h, c, cs, k - 1);
    }
    if k + |line| < |c| {
      UnitOf(h, c, cs, k + |line|);
    }
  }

  lemma NoEndInside(h: Str, s: nat, begin: Str, end: Str, c: Str, i: nat)
    requires IsLine(begin) && IsLine(end) && BlockAt(h, s, begin, end, c) && GoodContent(c, end)
    requires s + |begin| <= i < s + |begin| + |c| + 2
    ensures !LineAt(h, end, i)
  {
    if LineAt(h, end, i) {
      var cs := s + |begin| + 1;
      if i < cs {
        NoNewlineInside(h, end, i, i);
      } else {
        LineInside(h, c, cs, end, i);
      }
    }
  }

  lemma EndFound(h: Str, s: nat, begin: Str, end: Str, c: Str)
    requires IsLine(begin) && IsLine(end) && BlockAt(h, s, begin, end, c) && GoodContent(c, end)
    ensures FirstLine(h, end, s + |begin|) == s + |begin| + |c| + 2
  {
    var es := s + |begin| + |c| + 2;
    forall i | s + |begin| <= i < es ensures !LineAt(h, end, i) {
      NoEndInside(h, s, begin, end, c, i);
    }
    assert LineAt(h, end, es);
    FirstLineIs(h, end, s + |begin|, es);
  }

  lemma ContentSliced(h: Str, c: Str, cs: nat)
    requires StringAt(h, c, cs) && cs + |c| < |h| && h[cs + |c|] == NL
    ensures WithoutLastNewline(Slice(h, cs, cs + |c| + 1)) == c
  {
    assert Slice(h, cs, cs + |c| + 1) == c + [NL];
    assert (c + [NL])[..|c|] == c;
  }

  lemma FindsBetween(h: Str, begin: Str, end: Str, s: nat, es: nat, found: Found)
    requires FirstLine(h, begin, 0) == s && FirstLine(h, end, s + |begin|) == es && Bounded(h, begin, end, s, es) == found
    ensures FindBetween(h, begin, end) == found
  {
  }

  lemma BeginFound(h: Str, s: nat, begin: Str, end: Str, c: Str)
    requires BlockAt(h, s, begin, end, c) && NoLineIn(h, begin, 0, s)
    ensures FirstLine(h, begin, 0) == s
  {
    assert LineAt(h, begin, s);
    FirstLineIs(h, begin, 0, s);
  }

  lemma ContentFound(h: Str, s: nat, begin: Str, end: Str, c: Str)
    requires BlockAt(h, s, begin, end, c)
    ensures Bounded(h, begin, end, s, s + |begin| + |c| + 2) == Found(s, s + |begin| + |c| + |end| + 3, c)
  {
    ContentSliced(h, c, s + |begin| + 1);
  }

  /** The first block of a text is found, with exactly its content and its bounds. */
  lemma BlockFound(h: Str, s: nat, begin: Str, end: Str, c: Str)
    requires IsLine(begin) && IsLine(end) && BlockAt(h, s, begin, end, c) && GoodContent(c, end) && NoLineIn(h, begin, 0, s)
    ensures FindBetween(h, begin, end) == Found(s, s + |begin| + |c| + |end| + 3, c)
  {
    var es := s + |begin| + |c| + 2;
    BeginFound(h, s, begin, end, c);
    EndFound(h, s, begin, end, c);
    ContentFound(h, s, begin, end, c);
    FindsBetween(h, begin, end, s, es, Found(s, es + |end| + 1, c));
  }

  // ---------------------------------------------------------------- a block placed between two texts

  /** A text that ends where a line ends. */
  predicate EndsLine(p: Str) { p == [] || p[|p| - 1] == NL }

  lemma PartAt(a: Str, s: Str, b: Str)
    ensures StringAt(a + s + b, s, |a|)
  {
    var h := a + s + b;
    assert h[|a|..|a| + |s|] == s;
  }

  lemma StringParts(h: Str, a: Str, b: Str, i: nat)
    requires StringAt(h, a + b, i)
    ensures StringAt(h, a, i) && StringAt(h, b, i + |a|)
  {
    var s := h[i..i + |a + b|];
    assert s[..|a|] == a && s[|a|..] == b;
    assert s[..|a|] == h[i..i + |a|] && s[|a|..] == h[i + |a|..i + |a| + |b|];
  }

  lemma BlockParts(h: Str, i: nat, begin: Str, end: Str, c: Str)
    requires StringAt(h, Block(begin, end, c), i)
    ensures StringAt(h, begin, i) && StringAt(h, [NL], i + |begin|) && StringAt(h, c, i + |begin| + 1)
    ensures StringAt(h, [NL], i + |begin| + 1 + |c|) && StringAt(h, end, i + |begin| + |c| + 2)
    ensures StringAt(h, [NL], i + |begin| + |c| + 2 + |end|)
  {
    var one := begin + [NL];
    var two := one + c;
    var three := two + [NL];
    var four := three + end;
    StringParts(h, four, [NL], i);
    StringParts(h, three, end, i);
    StringParts(h, two, [NL], i);
    StringParts(h, one, c, i);
    StringParts(h, begin, [NL], i);
  }

  lemma PlacedAt(h: Str, i: nat, begin: Str, end: Str, c: Str)
    requires StringAt(h, Block(begin, end, c), i) && (i == 0 || h[i - 1] == NL)
    ensures BlockAt(h, i, begin, end, c)
  {
    BlockParts(h, i, begin, end, c);
    UnitOf(h, [NL], i + |begin|, 0);
    UnitOf(h, [NL], i + |begin| + 1 + |c|, 0);
    UnitOf(h, [NL], i + |begin| + |c| + 2 + |end|, 0);
  }

  lemma Placed(p: Str, q: Str, begin: Str, end: Str, c: Str)
    requires EndsLine(p)
    ensures BlockAt(p + Block(begin, end, c) + q, |p|, begin, end, c)
  {
    var block := Block(begin, end, c);
    PartAt(p, block, q);
    PlacedAt(p + block + q, |p|, begin, end, c);
  }

  /** Before a line's end, whole lines of a text are whole lines of its first part. */
  lemma LineBefore(p: Str, rest: Str, line: Str, i: nat)
    requires EndsLine(p) && IsLine(line) && i < |p| && LineAt(p + rest, line, i)
    ensures LineAt(p, line, i)
  {
    var h := p + rest;
    assert h[|p| - 1] == NL;
    if i + |line| > |p| - 1 {
      NoNewlineInside(h, line, i, |p| - 1);
    }
    assert p[i..i + |line|] == h[i..i + |line|];
  }

  /** A block placed after a text without its begin line, where a line ends, is found there. */
  lemma PlacedIsFound(p: Str, q: Str, begin: Str, end: Str, c: Str)
    requires EndsLine(p) && IsLine(begin) && IsLine(end) && GoodContent(c, end) && !(exists i :: 0 <= i < |p| && LineAt(p, begin, i))
    ensures FindBetween(p + Block(begin, end, c) + q, begin, end) == Found(|p|, |p| + |Block(begin, end, c)|, c)
  {
    var block := Block(begin, end, c);
    var h := p + block + q;
    Placed(p, q, begin, end, c);
    assert h == p + (block + q);
    forall i | 0 <= i < |p| ensures !LineAt(h, begin, i) {
      if LineAt(h, begin, i) {
        LineBefore(p, block + q, begin, i);
      }
    }
    BlockFound(h, |p|, begin, end, c);
  }
}
