/** How inserting, finding and removing undo each other, and for which hosts and contents they do not. */
module SentinelLaws {
  import opened Text
  import opened Sentinel

  /** The insertion point after the marker is the end of a host whose last line, the marker or a later one, has no newline. */
  predicate Unterminated(h: Str, anchor: Anchor) {
    && anchor.AfterMarker?
    && var i := FirstLine(h, anchor.marker, 0);
       0 <= i < |h| && IndexFrom(h, [NL], i) == -1
  }

  /** The two lines that enclose a block. */
  predicate Markers(begin: Str, end: Str) {
    IsLine(begin) && IsLine(end) && 2 < |end| <= |begin| && begin != end
  }

  predicate NoLastNewline(c: Str) { c == [] || c[|c| - 1] != NL }

  // ---------------------------------------------------------------- where a block goes

  function InsertionPoint(h: Str, anchor: Anchor): nat {
    var marker := if anchor.AfterMarker? then FirstLine(h, anchor.marker, 0) else -1;
    if marker < 0 || IndexFrom(h, [NL], marker) < 0 then |h| else IndexFrom(h, [NL], marker) + 1
  }

  /** What comes before the block once it is inserted. */
  function Head(h: Str, begin: Str, end: Str, anchor: Anchor): Str {
    match FindBetween(h, begin, end)
    case Found(i, _, _) => h[..i]
    case Nothing =>
      if anchor.AfterMarker? && FirstLine(h, anchor.marker, 0) >= 0 then
        if InsertionPoint(h, anchor) <= |h| then h[..InsertionPoint(h, anchor)] else h
      else if EndsLine(h) then h
      else h + [NL]
  }

  function Tail(h: Str, begin: Str, end: Str, anchor: Anchor): Str {
    match FindBetween(h, begin, end)
    case Found(_, j, _) => h[j..]
    case Nothing =>
      if anchor.AfterMarker? && FirstLine(h, anchor.marker, 0) >= 0 && InsertionPoint(h, anchor) <= |h|
      then h[InsertionPoint(h, anchor)..] else []
  }

  lemma PointInside(h: Str, anchor: Anchor)
    ensures InsertionPoint(h, anchor) <= |h|
  {
  }

  /** A block is there already, or the new one goes where a line starts and no begin line stands above it. */
  predicate FreshSpot(h: Str, begin: Str, end: Str, anchor: Anchor) {
    || FindBetween(h, begin, end).Found?
    || (!Unterminated(h, anchor) && !(0 <= FirstLine(h, begin, 0) < InsertionPoint(h, anchor)))
  }

  /** The condition of the laws below: the spot is fresh, and no line of the content is the end line. */
  predicate Fits(h: Str, begin: Str, end: Str, c: Str, anchor: Anchor) { FreshSpot(h, begin, end, anchor) && !HasLine(c, end) }

  lemma InsertForm(h: Str, begin: Str, end: Str, c: Str, anchor: Anchor)
    ensures InsertBetween(h, begin, end, c, anchor) == Head(h, begin, end, anchor) + Block(begin, end, c) + Tail(h, begin, end, anchor)
  {
    var block := Block(begin, end, c);
    PointInside(h, anchor);
    assert h + block + [] == h + block && (h + [NL]) + block + [] == h + [NL] + block;
    assert [] + block + [] == block;
    assert h[..|h|] == h && h[|h|..] == [];
  }

  /** Taking the block out again leaves the host, with at most one newline more; a block that was there before is gone too. */
  lemma HeadAndTail(h: Str, begin: Str, end: Str, anchor: Anchor)
    ensures var rest := Head(h, begin, end, anchor) + Tail(h, begin, end, anchor);
            if FindBetween(h, begin, end).Found? then rest == RemoveBetween(h, begin, end)
            else rest == h || (!EndsLine(h) && rest == h + [NL])
  {
    PointInside(h, anchor);
    if FindBetween(h, begin, end).Nothing? {
      assert h[..InsertionPoint(h, anchor)] + h[InsertionPoint(h, anchor)..] == h;
      assert h + [] == h && (h + [NL]) + [] == h + [NL];
    }
  }

  // ---------------------------------------------------------------- lines of the head are lines of the host

  lemma LineWidens(h: Str, n: nat, line: Str, i: nat)
    requires n <= |h| && EndsLine(h[..n]) && IsLine(line) && i < n && LineAt(h[..n], line, i)
    ensures LineAt(h, line, i)
  {
    var p := h[..n];
    assert p[i..i + |line|] == h[i..i + |line|];
    assert p[i + |line| - 1] == line[|line| - 1];
  }

  lemma LineBeforeNewline(h: Str, line: Str, i: nat)
    requires IsLine(line) && i <= |h| && LineAt(h + [NL], line, i)
    ensures LineAt(h, line, i)
  {
    var p := h + [NL];
    if i + |line| > |h| {
      NoNewlineInside(p, line, i, |h|);
    }
    assert p[i..i + |line|] == h[i..i + |line|];
  }

  ghost predicate HasNone(p: Str, line: Str) { forall i :: 0 <= i < |p| ==> !LineAt(p, line, i) }

  lemma PrefixHasNone(h: Str, n: nat, line: Str)
    requires n <= |h| && EndsLine(h[..n]) && IsLine(line) && NoLineIn(h, line, 0, n)
    ensures HasNone(h[..n], line)
  {
    forall i | 0 <= i < n ensures !LineAt(h[..n], line, i) {
      if LineAt(h[..n], line, i) {
        LineWidens(h, n, line, i);
      }
    }
  }

  lemma FoundAtLine(h: Str, begin: Str, end: Str)
    requires FindBetween(h, begin, end).Found?
    ensures var i := FindBetween(h, begin, end).start; LineAt(h, begin, i) && NoLineIn(h, begin, 0, i) && EndsLine(h[..i])
  {
    FirstLineMeaning(h, begin, 0);
  }

  lemma NewlineEnds(h: Str, at: nat)
    requires StringAt(h, [NL], at)
    ensures at < |h| && EndsLine(h[..at + 1])
  {
    UnitOf(h, [NL], at, 0);
  }

  lemma LineAtEnd(h: Str, line: Str)
    requires LineAt(h, line, |h|)
    ensures EndsLine(h[..|h|])
  {
    assert h[..|h|] == h;
  }

  lemma PointEndsLine(h: Str, anchor: Anchor)
    requires anchor.AfterMarker? && FirstLine(h, anchor.marker, 0) >= 0 && !Unterminated(h, anchor)
    ensures InsertionPoint(h, anchor) <= |h| && EndsLine(h[..InsertionPoint(h, anchor)])
  {
    var i := FirstLine(h, anchor.marker, 0);
    var at := IndexFrom(h, [NL], i);
    if at >= 0 {
      NewlineEnds(h, at);
    } else {
      FirstLineMeaning(h, anchor.marker, 0);
      LineAtEnd(h, anchor.marker);
    }
  }

  lemma FreshHasNone(h: Str, begin: Str, end: Str, anchor: Anchor)
    requires FreshSpot(h, begin, end, anchor) && FindBetween(h, begin, end).Nothing?
    ensures NoLineIn(h, begin, 0, InsertionPoint(h, anchor))
  {
    FirstLineMeaning(h, begin, 0);
  }

  lemma NewlineHasNone(h: Str, begin: Str)
    requires IsLine(begin) && NoLineIn(h, begin, 0, |h|)
    ensures HasNone(h + [NL], begin)
  {
    forall i | 0 <= i < |h + [NL]| ensures !LineAt(h + [NL], begin, i) {
      if LineAt(h + [NL], begin, i) {
        LineBeforeNewline(h, begin, i);
      }
    }
  }

  lemma HeadIsGood(h: Str, begin: Str, end: Str, anchor: Anchor)
    requires IsLine(begin) && FreshSpot(h, begin, end, anchor)
    ensures EndsLine(Head(h, begin, end, anchor)) && HasNone(Head(h, begin, end, anchor), begin)
  {
    assert h[..|h|] == h;
    if FindBetween(h, begin, end).Found? {
      FoundAtLine(h, begin, end);
      PrefixHasNone(h, FindBetween(h, begin, end).start, begin);
    } else {
      FreshHasNone(h, begin, end, anchor);
      if anchor.AfterMarker? && FirstLine(h, anchor.marker, 0) >= 0 {
        PointEndsLine(h, anchor);
        PrefixHasNone(h, InsertionPoint(h, anchor), begin);
      } else if EndsLine(h) {
        PrefixHasNone(h, |h|, begin);
      } else {
        NewlineHasNone(h, begin);
      }
    }
  }

  // ---------------------------------------------------------------- what is found

  /** The first begin line stands at `i`, and an end line at `j` below it. */
  ghost predicate Encloses(h: Str, begin: Str, end: Str, i: nat, j: nat) {
    LineAt(h, begin, i) && NoLineIn(h, begin, 0, i) && i + |begin| <= j && LineAt(h, end, j)
  }

  lemma EnclosedIsFound(h: Str, begin: Str, end: Str, i: nat, j: nat)
    requires Encloses(h, begin, end, i, j)
    ensures FindBetween(h, begin, end).Found? && FindBetween(h, begin, end).start == i
  {
    FirstLineIs(h, begin, 0, i);
    FirstLineMeaning(h, end, i + |begin|);
  }

  lemma FoundIsBounded(h: Str, begin: Str, end: Str) returns (i: nat, j: nat)
    requires FindBetween(h, begin, end).Found?
    ensures FirstLine(h, begin, 0) == i && FirstLine(h, end, i + |begin|) == j && FindBetween(h, begin, end) == Bounded(h, begin, end, i, j)
  {
    i := FirstLine(h, begin, 0);
    j := FirstLine(h, end, i + |begin|);
  }

  /** A line ends before any newline that follows its start. */
  lemma LineStops(h: Str, line: Str, i: nat, n: nat)
    requires IsLine(line) && StringAt(h, line, i) && i <= n < |h| && h[n] == NL
    ensures i + |line| <= n
  {
    if n < i + |line| {
      NoNewlineInside(h, line, i, n);
    }
  }

  lemma EndLineBelow(h: Str, begin: Str, end: Str, i: nat, j: nat)
    requires IsLine(begin) && Encloses(h, begin, end, i, j) && end != []
    ensures i + |begin| < j && h[i + |begin|] == NL && h[j - 1] == NL
  {
    LineStops(h, begin, i, j - 1);
  }

  lemma BoundedReaches(h: Str, begin: Str, end: Str, i: nat, j: nat)
    requires LineAt(h, end, j) && i + |begin| < j && h[j - 1] == NL
    ensures Bounded(h, begin, end, i, j).start == i && j + |end| <= |h|
    ensures Bounded(h, begin, end, i, j).end == if j + |end| < |h| then j + |end| + 1 else |h|
    ensures Bounded(h, begin, end, i, j).content == Between(h, i + |begin| + 1, j)
  {
  }

  /** The text of the lines from `i` up to the line that starts at `j`. */
  function Between(h: Str, i: nat, j: nat): Str
    requires i <= j <= |h|
  {
    if i == j then [] else h[i..j - 1]
  }

  lemma FirstEncloses(h: Str, begin: Str, end: Str, i: nat, j: nat)
    requires FirstLine(h, begin, 0) == i && FirstLine(h, end, i + |begin|) == j
    ensures Encloses(h, begin, end, i, j) && NoLineIn(h, end, i + |begin|, j)
  {
    FirstLineMeaning(h, begin, 0);
    FirstLineMeaning(h, end, i + |begin|);
  }

  /** What is found reaches from the first begin line to the first end line below it, and holds the lines between them. */
  lemma FoundEncloses(h: Str, begin: Str, end: Str) returns (i: nat, j: nat)
    requires IsLine(begin) && IsLine(end) && FindBetween(h, begin, end).Found?
    ensures Encloses(h, begin, end, i, j) && NoLineIn(h, end, i + |begin|, j)
    ensures i + |begin| < j && h[i + |begin|] == NL && h[j - 1] == NL && j + |end| <= |h|
    ensures FindBetween(h, begin, end).start == i
    ensures FindBetween(h, begin, end).end == if j + |end| < |h| then j + |end| + 1 else |h|
    ensures FindBetween(h, begin, end).content == Between(h, i + |begin| + 1, j)
  {
    i, j := FoundIsBounded(h, begin, end);
    FirstEncloses(h, begin, end, i, j);
    EndLineBelow(h, begin, end, i, j);
    BoundedReaches(h, begin, end, i, j);
  }

  /** An end line below any begin line makes a block. */
  lemma FoundIfBelow(h: Str, begin: Str, end: Str, i: nat, j: nat)
    requires LineAt(h, begin, i) && LineAt(h, end, j) && i + |begin| <= j
    ensures FindBetween(h, begin, end).Found?
  {
    FirstLineMeaning(h, begin, 0);
    FirstLineMeaning(h, end, FirstLine(h, begin, 0) + |begin|);
  }

  /** A block is found exactly when an end line follows the first begin line. */
  lemma FoundExactly(h: Str, begin: Str, end: Str)
    requires IsLine(begin) && IsLine(end)
    ensures FindBetween(h, begin, end).Found? <==> exists i: nat, j: nat :: Encloses(h, begin, end, i, j)
  {
    if FindBetween(h, begin, end).Found? {
      var i, j := FoundEncloses(h, begin, end);
    }
    if i: nat, j: nat :| Encloses(h, begin, end, i, j) {
      EnclosedIsFound(h, begin, end, i, j);
    }
  }

  /** At the place of a whole line stands no other. */
  lemma NotTwoLines(h: Str, a: Str, b: Str, i: nat)
    requires IsLine(a) && IsLine(b) && LineAt(h, b, i) && |a| <= |b| && a != b
    ensures !LineAt(h, a, i)
  {
    if |a| < |b| {
      UnitOf(h, b, i, |a|);
    }
  }

  /** A line does not start inside another one. */
  lemma NoStartInside(h: Str, a: Str, b: Str, i: nat, j: nat)
    requires IsLine(a) && LineAt(h, a, i) && LineAt(h, b, j) && i < j
    ensures i + |a| < j
  {
    if j <= i + |a| {
      NoNewlineInside(h, a, i, j - 1);
    }
  }

  lemma EndInContent(h: Str, end: Str, i: nat, j: nat, k: nat)
    requires IsLine(end) && i < j <= |h| && h[i] == NL && h[j - 1] == NL && NoLineIn(h, end, i, j)
    requires k <= |Between(h, i + 1, j)|
    ensures !LineAt(Between(h, i + 1, j), end, k)
  {
    var c := Between(h, i + 1, j);
    if LineAt(c, end, k) {
      assert c[k..k + |end|] == h[i + 1 + k..i + 1 + k + |end|];
      assert k > 0 ==> c[k - 1] == h[i + k];
      assert k + |end| < |c| ==> c[k + |end|] == h[i + 1 + k + |end|];
      assert LineAt(h, end, i + 1 + k);
    }
  }

  lemma BetweenHasNoEnd(h: Str, end: Str, i: nat, j: nat)
    requires IsLine(end) && i < j <= |h| && h[i] == NL && h[j - 1] == NL && NoLineIn(h, end, i, j)
    ensures !HasLine(Between(h, i + 1, j), end)
  {
    var c := Between(h, i + 1, j);
    forall k | 0 <= k <= |c| ensures !LineAt(c, end, k) {
      EndInContent(h, end, i, j, k);
    }
  }

  /** No content that is found has the end line in it. */
  lemma FoundHasNoEnd(h: Str, begin: Str, end: Str)
    requires IsLine(begin) && IsLine(end) && FindBetween(h, begin, end).Found?
    ensures !HasLine(FindBetween(h, begin, end).content, end)
  {
    var i, j := FoundEncloses(h, begin, end);
    BetweenHasNoEnd(h, end, i + |begin|, j);
  }

  // ---------------------------------------------------------------- a spot that is not fresh

  /** `p` is what comes before the block in host `h`: all of it and its last line goes on, or lines of it. */
  predicate Glued(h: Str, p: Str) { p == h && h != [] && h[|h| - 1] != NL }

  predicate Lines(h: Str, p: Str) { p != [] && p[|p| - 1] == NL && (p <= h || p == h + [NL]) }

  /** A text in which a begin line was put after `p`. */
  function With(p: Str, begin: Str, rest: Str): (r: Str)
    ensures |r| == |p| + |begin| + 1 + |rest| && r[|p| + |begin|] == NL
    ensures forall k :: 0 <= k < |p| ==> r[k] == p[k]
    ensures forall k :: |p| <= k < |p| + |begin| ==> r[k] == begin[k - |p|]
  {
    p + begin + ([NL] + rest)
  }

  function After(end: Str, c: Str, q: Str): Str { c + [NL] + end + [NL] + q }

  lemma WithBlock(p: Str, begin: Str, end: Str, c: Str, q: Str)
    ensures p + Block(begin, end, c) + q == With(p, begin, After(end, c, q))
  {
  }

  lemma LineOfHead(h: Str, p: Str, line: Str, i: nat)
    requires Glued(h, p) || Lines(h, p)
    requires IsLine(line) && i + |line| < |p| && LineAt(p, line, i)
    ensures LineAt(h, line, i)
  {
    if p <= h {
      assert p[i..i + |line|] == h[i..i + |line|];
    } else {
      LineBeforeNewline(h, line, i);
    }
  }

  lemma StaysInHead(h: Str, p: Str, begin: Str, rest: Str, line: Str, i: nat)
    requires Glued(h, p) || Lines(h, p)
    requires IsLine(begin) && IsLine(line) && |line| <= |begin| && i < |p| && LineAt(With(p, begin, rest), line, i)
    ensures i + |line| < |p|
  {
    var r := With(p, begin, rest);
    if Lines(h, p) {
      LineStops(r, line, i, |p| - 1);
    }
  }

  /** Lines that start before the block are lines of the host. */
  lemma HeadLine(h: Str, p: Str, begin: Str, rest: Str, line: Str, i: nat)
    requires Glued(h, p) || Lines(h, p)
    requires IsLine(begin) && IsLine(line) && |line| <= |begin| && i < |p| && LineAt(With(p, begin, rest), line, i)
    ensures i + |line| < |p| && LineAt(h, line, i)
  {
    var r := With(p, begin, rest);
    StaysInHead(h, p, begin, rest, line, i);
    assert p[i..i + |line|] == r[i..i + |line|];
    LineOfHead(h, p, line, i);
  }

  lemma NotInBeginLine(p: Str, begin: Str, rest: Str, line: Str, j: nat)
    requires IsLine(begin) && IsLine(line) && |p| < j <= |p| + |begin|
    ensures !LineAt(With(p, begin, rest), line, j)
  {
    assert With(p, begin, rest)[j - 1] == begin[j - 1 - |p|];
  }

  lemma NotAtBeginLine(h: Str, p: Str, begin: Str, end: Str, rest: Str)
    requires (Glued(h, p) || Lines(h, p)) && Markers(begin, end)
    ensures !LineAt(With(p, begin, rest), end, |p|)
  {
    var r := With(p, begin, rest);
    if Lines(h, p) {
      assert r[|p|..|p| + |begin|] == begin;
      NotTwoLines(r, end, begin, |p|);
    }
  }

  /** Between a begin line of the host and the content no end line stands. */
  lemma NoEndBefore(h: Str, p: Str, begin: Str, end: Str, rest: Str, i: nat, j: nat)
    requires (Glued(h, p) || Lines(h, p)) && Markers(begin, end) && FindBetween(h, begin, end).Nothing?
    requires i < |p| && LineAt(With(p, begin, rest), begin, i) && i + |begin| <= j && LineAt(With(p, begin, rest), end, j)
    ensures |p| + |begin| < j
  {
    if j < |p| {
      HeadLine(h, p, begin, rest, begin, i);
      HeadLine(h, p, begin, rest, end, j);
      FoundIfBelow(h, begin, end, i, j);
    } else if j == |p| {
      NotAtBeginLine(h, p, begin, end, rest);
    } else if j <= |p| + |begin| {
      NotInBeginLine(p, begin, rest, end, j);
    }
  }

  /** A begin line glued to the host's last line is not a line. */
  lemma StartsLater(h: Str, begin: Str, rest: Str, i: nat)
    requires IsLine(begin) && Glued(h, h) && |h| <= i && LineAt(With(h, begin, rest), begin, i)
    ensures |h| + |begin| < i
  {
    if |h| < i <= |h| + |begin| {
      NotInBeginLine(h, begin, rest, begin, i);
    }
  }

  /** How the text looks when the spot is not fresh. */
  ghost predicate Stale(h: Str, begin: Str, p: Str, q: Str) {
    && |h| <= |p| + |q| <= |h| + 1
    && ((Glued(h, p) && q == []) || (Lines(h, p) && exists i :: 0 <= i < |p| && LineAt(p, begin, i)))
  }

  lemma HeadKeepsLine(h: Str, n: nat, begin: Str, i: nat)
    requires IsLine(begin) && i < n <= |h| && h[n - 1] == NL && LineAt(h, begin, i)
    ensures LineAt(h[..n], begin, i)
  {
    var p := h[..n];
    LineStops(h, begin, i, n - 1);
    assert p[i..i + |begin|] == h[i..i + |begin|];
  }

  lemma StaleAfterMarker(h: Str, begin: Str, n: nat, i: nat)
    requires IsLine(begin) && i < n <= |h| && EndsLine(h[..n]) && LineAt(h, begin, i)
    ensures Stale(h, begin, h[..n], h[n..])
  {
    HeadKeepsLine(h, n, begin, i);
  }

  lemma StaleAtEnd(h: Str, begin: Str, i: nat)
    requires IsLine(begin) && LineAt(h, begin, i)
    ensures Stale(h, begin, if EndsLine(h) then h else h + [NL], [])
  {
    var p := if EndsLine(h) then h else h + [NL];
    assert p[i..i + |begin|] == h[i..i + |begin|];
    assert LineAt(p, begin, i);
  }

  lemma StaleSpot(h: Str, begin: Str, end: Str, anchor: Anchor)
    requires Markers(begin, end) && !FreshSpot(h, begin, end, anchor)
    ensures Stale(h, begin, Head(h, begin, end, anchor), Tail(h, begin, end, anchor))
  {
    PointInside(h, anchor);
    assert h[..|h|] == h && h[|h|..] == [];
    if Unterminated(h, anchor) {
      UnterminatedEnds(h, anchor);
    } else {
      FirstLineMeaning(h, begin, 0);
      if anchor.AfterMarker? && FirstLine(h, anchor.marker, 0) >= 0 {
        PointEndsLine(h, anchor);
        StaleAfterMarker(h, begin, InsertionPoint(h, anchor), FirstLine(h, begin, 0));
      } else {
        StaleAtEnd(h, begin, FirstLine(h, begin, 0));
      }
    }
  }

  lemma UnterminatedEnds(h: Str, anchor: Anchor)
    requires Unterminated(h, anchor)
    ensures h != [] && h[|h| - 1] != NL
  {
    var n := |h| - 1;
    assert h[n..n + 1] == [h[n]];
    assert !StringAt(h, [NL], n);
  }

  /** What is found in a stale text starts in the host and takes the new begin line in, or starts in the content. */
  lemma StaleFound(h: Str, p: Str, q: Str, begin: Str, end: Str, c: Str) returns (i: nat, j: nat)
    requires Markers(begin, end) && FindBetween(h, begin, end).Nothing? && Stale(h, begin, p, q)
    requires FindBetween(With(p, begin, After(end, c, q)), begin, end).Found?
    ensures var r, f := With(p, begin, After(end, c, q)), FindBetween(With(p, begin, After(end, c, q)), begin, end);
            && Encloses(r, begin, end, i, j) && f.start == i && j + |end| <= |r| && i + |begin| < j && |p| + |begin| < j
            && f.end == (if j + |end| < |r| then j + |end| + 1 else |r|) && f.content == Between(r, i + |begin| + 1, j)
            && (i < |p| || (q == [] && |p| + |begin| < i))
  {
    var rest := After(end, c, q);
    i, j := FoundEncloses(With(p, begin, rest), begin, end);
    if i < |p| {
      NoEndBefore(h, p, begin, end, rest, i, j);
    } else if Glued(h, p) {
      StartsLater(h, begin, rest, i);
    } else {
      var k :| 0 <= k < |p| && LineAt(p, begin, k);
      KeptLine(p, begin, rest, k);
    }
  }

  lemma KeptLine(p: Str, begin: Str, rest: Str, k: nat)
    requires IsLine(begin) && p != [] && p[|p| - 1] == NL && k < |p| && LineAt(p, begin, k)
    ensures LineAt(With(p, begin, rest), begin, k)
  {
    var r := With(p, begin, rest);
    LineStops(p, begin, k, |p| - 1);
    assert r[k..k + |begin|] == p[k..k + |begin|];
  }

  // ---------------------------------------------------------------- the lines of the block itself

  lemma AfterUnits(p: Str, q: Str, begin: Str, end: Str, c: Str)
    ensures var r, cs := With(p, begin, After(end, c, q)), |p| + |begin| + 1;
            && StringAt(r, c, cs) && cs + |c| < |r| && r[cs + |c|] == NL && StringAt(r, end, cs + |c| + 1)
            && |r| == cs + |c| + |end| + 2 + |q| && r[cs + |c| + 1 + |end|] == NL
  {
    var r, cs := With(p, begin, After(end, c, q)), |p| + |begin| + 1;
    assert r[cs..] == After(end, c, q);
    assert r[cs..cs + |c|] == c;
    assert r[cs + |c| + 1..cs + |c| + 1 + |end|] == end;
  }

  lemma OwnEndLine(p: Str, q: Str, begin: Str, end: Str, c: Str)
    ensures LineAt(With(p, begin, After(end, c, q)), end, |p| + |begin| + |c| + 2)
  {
    AfterUnits(p, q, begin, end, c);
  }

  /** A line of the content is a line of the text. */
  lemma ContentLine(p: Str, q: Str, begin: Str, end: Str, c: Str, line: Str, k: nat)
    requires k <= |c| && LineAt(c, line, k)
    ensures LineAt(With(p, begin, After(end, c, q)), line, |p| + |begin| + 1 + k)
  {
    var r, cs := With(p, begin, After(end, c, q)), |p| + |begin| + 1;
    AfterUnits(p, q, begin, end, c);
    assert r[cs + k..cs + k + |line|] == r[cs..cs + |c|][k..k + |line|];
    if k > 0 {
      UnitOf(r, c, cs, k - 1);
    }
    if k + |line| < |c| {
      UnitOf(r, c, cs, k + |line|);
    }
  }

  /** An end line that starts in the content, or right below it, is a line of the content, or its own. */
  lemma EndFromContent(p: Str, q: Str, begin: Str, end: Str, c: Str, j: nat)
    requires IsLine(end) && |p| + |begin| < j < |p| + |begin| + |c| + 2 && LineAt(With(p, begin, After(end, c, q)), end, j)
    ensures HasLine(c, end)
  {
    AfterUnits(p, q, begin, end, c);
    LineInside(With(p, begin, After(end, c, q)), c, |p| + |begin| + 1, end, j);
  }

  // ---------------------------------------------------------------- main results

  lemma FindInserted(h: Str, begin: Str, end: Str, c: Str, anchor: Anchor)
    requires Markers(begin, end) && NoLastNewline(c) && Fits(h, begin, end, c, anchor)
    ensures var p := Head(h, begin, end, anchor);
            FindBetween(InsertBetween(h, begin, end, c, anchor), begin, end) == Found(|p|, |p| + |Block(begin, end, c)|, c)
  {
    InsertForm(h, begin, end, c, anchor);
    HeadIsGood(h, begin, end, anchor);
    PlacedIsFound(Head(h, begin, end, anchor), Tail(h, begin, end, anchor), begin, end, c);
  }

  /** In a stale text the content found is longer than the block's, or shorter. */
  lemma StaleContent(h: Str, p: Str, q: Str, begin: Str, end: Str, c: Str)
    requires Markers(begin, end) && FindBetween(h, begin, end).Nothing? && Stale(h, begin, p, q) && !HasLine(c, end)
    requires FindBetween(With(p, begin, After(end, c, q)), begin, end).Found?
    ensures |FindBetween(With(p, begin, After(end, c, q)), begin, end).content| != |c|
  {
    var i, j := StaleFound(h, p, q, begin, end, c);
    AfterUnits(p, q, begin, end, c);
    if j < |p| + |begin| + |c| + 2 {
      EndFromContent(p, q, begin, end, c, j);
    }
  }

  /** The content inserted is found again, exactly when it fits. */
  lemma FindAfterInsert(h: Str, begin: Str, end: Str, c: Str, anchor: Anchor)
    requires Markers(begin, end) && NoLastNewline(c)
    ensures var f := FindBetween(InsertBetween(h, begin, end, c, anchor), begin, end);
            f.Found? && f.content == c <==> Fits(h, begin, end, c, anchor)
  {
    var r := InsertBetween(h, begin, end, c, anchor);
    if Fits(h, begin, end, c, anchor) {
      FindInserted(h, begin, end, c, anchor);
    } else if FindBetween(r, begin, end).Found? {
      FoundHasNoEnd(r, begin, end);
      if !HasLine(c, end) {
        var p, q := Head(h, begin, end, anchor), Tail(h, begin, end, anchor);
        StaleSpot(h, begin, end, anchor);
        InsertForm(h, begin, end, c, anchor);
        WithBlock(p, begin, end, c, q);
        StaleContent(h, p, q, begin, end, c);
      }
    }
  }

  lemma CutOut(p: Str, b: Str, q: Str)
    ensures (p + b + q)[..|p|] == p && (p + b + q)[|p| + |b|..] == q
  {
  }

  lemma SecondInsert(h: Str, begin: Str, end: Str, c: Str, anchor: Anchor, c': Str, anchor': Anchor)
    requires Markers(begin, end) && NoLastNewline(c) && Fits(h, begin, end, c, anchor)
    ensures InsertBetween(InsertBetween(h, begin, end, c, anchor), begin, end, c', anchor') == InsertBetween(h, begin, end, c', anchor)
  {
    var p, q := Head(h, begin, end, anchor), Tail(h, begin, end, anchor);
    InsertForm(h, begin, end, c, anchor);
    InsertForm(h, begin, end, c', anchor);
    FindInserted(h, begin, end, c, anchor);
    CutOut(p, Block(begin, end, c), q);
  }

  lemma BlockUnits(r: Str, s: nat, begin: Str, end: Str, c: Str)
    requires StringAt(r, Block(begin, end, c), s)
    ensures var e := s + |begin| + |c| + |end| + 3;
            e <= |r| && r[e - 1] == NL && StringAt(r, c, s + |begin| + 1)
  {
    BlockParts(r, s, begin, end, c);
    UnitOf(r, [NL], s + |begin| + |c| + 2 + |end|, 0);
  }

  lemma ReplacedBySame(r: Str, s: nat, e: nat, block: Str)
    requires s <= e <= |r| && r[..s] + block + r[e..] == r
    ensures e == s + |block| && StringAt(r, block, s)
  {
    assert |r[..s] + block + r[e..]| == s + |block| + (|r| - e);
    assert (r[..s] + block + r[e..])[s..e] == block;
  }

  lemma UnchangedFound(r: Str, begin: Str, end: Str, c: Str, f: Found)
    requires Markers(begin, end) && f == FindBetween(r, begin, end) && f.Found? && f.end == f.start + |Block(begin, end, c)|
    requires StringAt(r, Block(begin, end, c), f.start)
    ensures f.content == c
  {
    var i, j := FoundEncloses(r, begin, end);
    BlockUnits(r, i, begin, end, c);
    UnitOf(r, end, j, |end| - 1);
    assert j == i + |begin| + |c| + 2;
    assert r[i + |begin| + 1..j - 1] == c;
  }

  /** An insertion that changes nothing found its own content there. */
  lemma UnchangedMeansFound(r: Str, begin: Str, end: Str, c: Str, anchor: Anchor)
    requires Markers(begin, end) && InsertBetween(r, begin, end, c, anchor) == r
    ensures FindBetween(r, begin, end).Found? && FindBetween(r, begin, end).content == c
  {
    var f := FindBetween(r, begin, end);
    if f.Nothing? {
      InsertForm(r, begin, end, c, anchor);
      HeadAndTail(r, begin, end, anchor);
    } else {
      ReplacedBySame(r, f.start, f.end, Block(begin, end, c));
      UnchangedFound(r, begin, end, c, f);
    }
  }

  /** Inserting twice is inserting once, exactly when the content fits. */
  lemma InsertTwice(h: Str, begin: Str, end: Str, c: Str, anchor: Anchor)
    requires Markers(begin, end) && NoLastNewline(c)
    ensures InsertBetween(InsertBetween(h, begin, end, c, anchor), begin, end, c, anchor) == InsertBetween(h, begin, end, c, anchor)
            <==> Fits(h, begin, end, c, anchor)
  {
    if Fits(h, begin, end, c, anchor) {
      SecondInsert(h, begin, end, c, anchor, c, anchor);
    } else {
      FindAfterInsert(h, begin, end, c, anchor);
      var once := InsertBetween(h, begin, end, c, anchor);
      if InsertBetween(once, begin, end, c, anchor) == once {
        UnchangedMeansFound(once, begin, end, c, anchor);
      }
    }
  }

  /** A second insertion gives what it alone would have given. */
  ghost predicate Overwrites(h: Str, begin: Str, end: Str, c: Str, anchor: Anchor, c': Str, anchor': Anchor) {
    InsertBetween(InsertBetween(h, begin, end, c, anchor), begin, end, c', anchor') == InsertBetween(h, begin, end, c', anchor)
  }

  /** Every later insertion replaces this one, whatever its content and its anchor, exactly when the content fits. */
  lemma LastInsertWins(h: Str, begin: Str, end: Str, c: Str, anchor: Anchor)
    requires Markers(begin, end) && NoLastNewline(c)
    ensures (forall c', anchor' :: Overwrites(h, begin, end, c, anchor, c', anchor')) <==> Fits(h, begin, end, c, anchor)
  {
    if Fits(h, begin, end, c, anchor) {
      forall c', anchor' ensures Overwrites(h, begin, end, c, anchor, c', anchor') {
        SecondInsert(h, begin, end, c, anchor, c', anchor');
      }
    } else {
      InsertTwice(h, begin, end, c, anchor);
      assert !Overwrites(h, begin, end, c, anchor, c, anchor);
    }
  }

  /** `back` is `h` without the block it had, up to one final newline if it had none. */
  predicate Restored(h: Str, begin: Str, end: Str, back: Str) {
    || back == RemoveBetween(h, begin, end)
    || (FindBetween(h, begin, end).Nothing? && !EndsLine(h) && back == h + [NL])
  }

  lemma RemoveInserted(h: Str, begin: Str, end: Str, c: Str, anchor: Anchor)
    requires Markers(begin, end) && NoLastNewline(c) && Fits(h, begin, end, c, anchor)
    ensures Restored(h, begin, end, RemoveBetween(InsertBetween(h, begin, end, c, anchor), begin, end))
  {
    InsertForm(h, begin, end, c, anchor);
    FindInserted(h, begin, end, c, anchor);
    CutOut(Head(h, begin, end, anchor), Block(begin, end, c), Tail(h, begin, end, anchor));
    HeadAndTail(h, begin, end, anchor);
  }

  /** Content with the end line in it: the rest of it, and the block's end line, stay behind. */
  lemma EndStaysBehind(p: Str, q: Str, begin: Str, end: Str, c: Str)
    requires Markers(begin, end) && HasLine(c, end) && EndsLine(p) && HasNone(p, begin)
    ensures |RemoveBetween(p + Block(begin, end, c) + q, begin, end)| > |p| + |q| + |end|
  {
    StartsAtBlock(p, q, begin, end, c);
    WithBlock(p, begin, end, c, q);
    FoundTooEarly(p, q, begin, end, c);
  }

  lemma FoundNoLater(r: Str, begin: Str, end: Str, i: nat, j: nat)
    requires IsLine(begin) && IsLine(end) && LineAt(r, begin, i) && NoLineIn(r, begin, 0, i) && i + |begin| <= j && LineAt(r, end, j)
    ensures FindBetween(r, begin, end).Found? && FindBetween(r, begin, end).start == i && FindBetween(r, begin, end).end <= j + |end| + 1
  {
    FoundIfBelow(r, begin, end, i, j);
    var i', j' := FoundEncloses(r, begin, end);
  }

  lemma FoundTooEarly(p: Str, q: Str, begin: Str, end: Str, c: Str)
    requires Markers(begin, end) && HasLine(c, end)
    requires LineAt(With(p, begin, After(end, c, q)), begin, |p|) && NoLineIn(With(p, begin, After(end, c, q)), begin, 0, |p|)
    ensures |RemoveBetween(With(p, begin, After(end, c, q)), begin, end)| > |p| + |q| + |end|
  {
    var k :| 0 <= k <= |c| && LineAt(c, end, k);
    ContentLine(p, q, begin, end, c, end, k);
    FoundNoLater(With(p, begin, After(end, c, q)), begin, end, |p|, |p| + |begin| + 1 + k);
    AfterUnits(p, q, begin, end, c);
  }

  lemma StartsAtBlock(p: Str, q: Str, begin: Str, end: Str, c: Str)
    requires IsLine(begin) && EndsLine(p) && HasNone(p, begin)
    ensures LineAt(p + Block(begin, end, c) + q, begin, |p|) && NoLineIn(p + Block(begin, end, c) + q, begin, 0, |p|)
  {
    var r, rest := p + Block(begin, end, c) + q, Block(begin, end, c) + q;
    Placed(p, q, begin, end, c);
    assert r == p + rest;
    forall i | 0 <= i < |p| ensures !LineAt(r, begin, i) {
      if LineAt(r, begin, i) {
        LineBefore(p, rest, begin, i);
      }
    }
  }

  /** When the end line found is the block's own, the host's text from the begin line on is lost. */
  lemma StaleLoses(h: Str, p: Str, q: Str, begin: Str, end: Str, c: Str, i: nat, j: nat)
    requires Markers(begin, end) && Stale(h, begin, p, q)
    requires i < |p| && LineAt(With(p, begin, After(end, c, q)), begin, i) && |p| + |begin| + |c| + 2 <= j
    ensures i + |With(p, begin, After(end, c, q))| - (j + |end| + 1) < |h| && i < |h| && i < |p|
  {
    AfterUnits(p, q, begin, end, c);
    HeadLine(h, p, begin, After(end, c, q), begin, i);
  }

  lemma EndKept(p: Str, q: Str, begin: Str, end: Str, c: Str, i: nat, e: nat)
    requires IsLine(end) && i < |p| && (i == 0 || With(p, begin, After(end, c, q))[i - 1] == NL)
    requires |p| < e <= |p| + |begin| + |c| + 2
    ensures var r := With(p, begin, After(end, c, q)); LineAt(r[..i] + r[e..], end, i + (|p| + |begin| + |c| + 2 - e))
  {
    var r, es := With(p, begin, After(end, c, q)), |p| + |begin| + |c| + 2;
    OwnEndLine(p, q, begin, end, c);
    CutLine(r, end, i, e, es);
  }

  lemma CutLine(r: Str, line: Str, i: nat, e: nat, n: nat)
    requires i <= e <= n <= |r| && (i == 0 || r[i - 1] == NL) && LineAt(r, line, n)
    ensures LineAt(r[..i] + r[e..], line, i + (n - e))
  {
    var b, k := r[..i] + r[e..], i + (n - e);
    assert forall m :: i <= m < |b| ==> b[m] == r[m - i + e];
    assert b[k..k + |line|] == r[n..n + |line|];
  }

  /** A begin line of the host and an end line left over below it would have been a block. */
  lemma NotLeftOver(h: Str, begin: Str, end: Str, i: nat, n: nat)
    requires Markers(begin, end) && FindBetween(h, begin, end).Nothing? && LineAt(h, begin, i) && i <= n <= |h|
    ensures !LineAt(h, end, n) && !LineAt(h + [NL], end, n)
  {
    if LineAt(h + [NL], end, n) {
      LineBeforeNewline(h, end, n);
    }
    if LineAt(h, end, n) {
      if i == n {
        NotTwoLines(h, end, begin, i);
      } else {
        NoStartInside(h, begin, end, i, n);
        FoundIfBelow(h, begin, end, i, n);
      }
    }
  }

  lemma StaleLeavesEnd(h: Str, p: Str, q: Str, begin: Str, end: Str, c: Str, i: nat, e: nat)
    requires Markers(begin, end) && FindBetween(h, begin, end).Nothing? && Stale(h, begin, p, q)
    requires i < |p| && LineAt(With(p, begin, After(end, c, q)), begin, i) && |p| < e <= |p| + |begin| + |c| + 2
    ensures var r := With(p, begin, After(end, c, q)); r[..i] + r[e..] != h && r[..i] + r[e..] != h + [NL]
  {
    var r := With(p, begin, After(end, c, q));
    HeadLine(h, p, begin, After(end, c, q), begin, i);
    EndKept(p, q, begin, end, c, i, e);
    LeftOver(h, r[..i] + r[e..], begin, end, i, i + (|p| + |begin| + |c| + 2 - e));
  }

  lemma LeftOver(h: Str, back: Str, begin: Str, end: Str, i: nat, n: nat)
    requires Markers(begin, end) && FindBetween(h, begin, end).Nothing? && LineAt(h, begin, i) && i <= n && LineAt(back, end, n)
    ensures back != h && back != h + [NL]
  {
    if n <= |h| {
      NotLeftOver(h, begin, end, i, n);
    }
  }

  /** Removing from a stale text never restores the host. */
  lemma StaleNotRestored(h: Str, p: Str, q: Str, begin: Str, end: Str, c: Str)
    requires Markers(begin, end) && FindBetween(h, begin, end).Nothing? && Stale(h, begin, p, q)
    ensures !Restored(h, begin, end, RemoveBetween(With(p, begin, After(end, c, q)), begin, end))
  {
    var r := With(p, begin, After(end, c, q));
    AfterUnits(p, q, begin, end, c);
    if FindBetween(r, begin, end).Found? {
      var i, j := StaleFound(h, p, q, begin, end, c);
      if i < |p| {
        StaleCut(h, p, q, begin, end, c, i, j);
      }
    }
  }

  lemma CutShorter(r: Str, i: nat, e: nat, h: Str)
    requires i <= e <= |r| && i + |r| - e < |h|
    ensures r[..i] + r[e..] != h && r[..i] + r[e..] != h + [NL]
  {
    assert |r[..i] + r[e..]| < |h|;
  }

  lemma StaleCut(h: Str, p: Str, q: Str, begin: Str, end: Str, c: Str, i: nat, j: nat)
    requires Markers(begin, end) && FindBetween(h, begin, end).Nothing? && Stale(h, begin, p, q)
    requires i < |p| && LineAt(With(p, begin, After(end, c, q)), begin, i)
    requires |p| + |begin| < j && LineAt(With(p, begin, After(end, c, q)), end, j)
    ensures var r := With(p, begin, After(end, c, q));
            var e := if j + |end| < |r| then j + |end| + 1 else |r|;
            r[..i] + r[e..] != h && r[..i] + r[e..] != h + [NL]
  {
    var r := With(p, begin, After(end, c, q));
    var e := if j + |end| < |r| then j + |end| + 1 else |r|;
    if j < |p| + |begin| + |c| + 2 {
      EndStartsInContent(p, q, begin, end, c, j);
      StaleLeavesEnd(h, p, q, begin, end, c, i, j + |end| + 1);
    } else {
      StaleLoses(h, p, q, begin, end, c, i, j);
      CutShorter(r, i, e, h);
    }
  }

  lemma EndStartsInContent(p: Str, q: Str, begin: Str, end: Str, c: Str, j: nat)
    requires IsLine(end) && |p| + |begin| < j < |p| + |begin| + |c| + 2 && LineAt(With(p, begin, After(end, c, q)), end, j)
    ensures j + |end| + 1 <= |p| + |begin| + |c| + 2 <= |With(p, begin, After(end, c, q))|
  {
    var r := With(p, begin, After(end, c, q));
    AfterUnits(p, q, begin, end, c);
    LineStops(r, end, j, |p| + |begin| + |c| + 1);
  }

  /** Removing what was inserted restores the host, exactly when the content fits. */
  lemma RemoveAfterInsert(h: Str, begin: Str, end: Str, c: Str, anchor: Anchor)
    requires Markers(begin, end) && NoLastNewline(c)
    ensures Restored(h, begin, end, RemoveBetween(InsertBetween(h, begin, end, c, anchor), begin, end)) <==> Fits(h, begin, end, c, anchor)
  {
    var p, q := Head(h, begin, end, anchor), Tail(h, begin, end, anchor);
    InsertForm(h, begin, end, c, anchor);
    WithBlock(p, begin, end, c, q);
    if Fits(h, begin, end, c, anchor) {
      RemoveInserted(h, begin, end, c, anchor);
    } else if FreshSpot(h, begin, end, anchor) {
      HeadIsGood(h, begin, end, anchor);
      EndStaysBehind(p, q, begin, end, c);
      HeadAndTail(h, begin, end, anchor);
    } else {
      StaleSpot(h, begin, end, anchor);
      StaleNotRestored(h, p, q, begin, end, c);
    }
  }

  /** A block already there is removed as if it had not been rewritten, exactly when the new content has no end line. */
  lemma RemoveAfterUpdate(h: Str, begin: Str, end: Str, c: Str, anchor: Anchor)
    requires Markers(begin, end) && NoLastNewline(c) && FindBetween(h, begin, end).Found?
    ensures RemoveBetween(InsertBetween(h, begin, end, c, anchor), begin, end) == RemoveBetween(h, begin, end) <==> !HasLine(c, end)
  {
    RemoveAfterInsert(h, begin, end, c, anchor);
  }

  // ---------------------------------------------------------------- removing twice

  /** Below the first block there is no other. */
  predicate OneBlock(h: Str, begin: Str, end: Str) {
    FindBetween(h, begin, end).Found? ==> FindBetween(h[FindBetween(h, begin, end).end..], begin, end).Nothing?
  }

  lemma LineShifts(p: Str, q: Str, line: Str, i: nat)
    requires EndsLine(p)
    ensures LineAt(p + q, line, |p| + i) <==> LineAt(q, line, i)
  {
    var h := p + q;
    if i + |line| <= |q| {
      assert h[|p| + i..|p| + i + |line|] == q[i..i + |line|];
    }
    assert i > 0 && i <= |q| ==> h[|p| + i - 1] == q[i - 1];
    assert i + |line| < |q| ==> h[|p| + i + |line|] == q[i + |line|];
  }

  lemma FoundBelow(p: Str, q: Str, begin: Str, end: Str)
    requires IsLine(begin) && IsLine(end) && EndsLine(p) && HasNone(p, begin)
    ensures FindBetween(p + q, begin, end).Found? <==> FindBetween(q, begin, end).Found?
  {
    if FindBetween(q, begin, end).Found? {
      FoundAbove(p + q, p, q, begin, end);
    } else if FindBetween(p + q, begin, end).Found? {
      NotFoundBelow(p + q, p, q, begin, end);
    }
  }

  lemma FoundAbove(h: Str, p: Str, q: Str, begin: Str, end: Str)
    requires h == p + q && IsLine(begin) && IsLine(end) && EndsLine(p) && FindBetween(q, begin, end).Found?
    ensures FindBetween(h, begin, end).Found?
  {
    var i, j := FoundEncloses(q, begin, end);
    LineShifts(p, q, begin, i);
    LineShifts(p, q, end, j);
    FoundIfBelow(h, begin, end, |p| + i, |p| + j);
  }

  lemma NotFoundBelow(h: Str, p: Str, q: Str, begin: Str, end: Str)
    requires h == p + q && IsLine(begin) && IsLine(end) && EndsLine(p) && HasNone(p, begin) && FindBetween(h, begin, end).Found?
    ensures FindBetween(q, begin, end).Found?
  {
    var i, j := FoundEncloses(h, begin, end);
    NotInHead(p, q, begin, i);
    EnclosedBelow(h, p, q, begin, end, i, j);
  }

  lemma EnclosedBelow(h: Str, p: Str, q: Str, begin: Str, end: Str, i: nat, j: nat)
    requires h == p + q && EndsLine(p) && |p| <= i && LineAt(h, begin, i) && LineAt(h, end, j) && i + |begin| <= j
    ensures FindBetween(q, begin, end).Found?
  {
    LineShifts(p, q, begin, i - |p|);
    LineShifts(p, q, end, j - |p|);
    FoundIfBelow(q, begin, end, i - |p|, j - |p|);
  }

  lemma NotInHead(p: Str, q: Str, begin: Str, i: nat)
    requires IsLine(begin) && EndsLine(p) && HasNone(p, begin) && LineAt(p + q, begin, i)
    ensures |p| <= i
  {
    if i < |p| {
      LineBefore(p, q, begin, i);
    }
  }

  lemma RemovedIsShorter(h: Str, begin: Str, end: Str)
    requires IsLine(begin) && IsLine(end)
    ensures RemoveBetween(h, begin, end) == h <==> FindBetween(h, begin, end).Nothing?
  {
    if FindBetween(h, begin, end).Found? {
      var i, j := FoundEncloses(h, begin, end);
      assert |h[..i] + h[FindBetween(h, begin, end).end..]| < |h|;
    }
  }

  /** Removing twice is removing once, exactly when there was one block at most. */
  lemma RemoveTwice(h: Str, begin: Str, end: Str)
    requires IsLine(begin) && IsLine(end)
    ensures RemoveBetween(RemoveBetween(h, begin, end), begin, end) == RemoveBetween(h, begin, end) <==> OneBlock(h, begin, end)
  {
    var f := FindBetween(h, begin, end);
    if f.Found? {
      FoundAtLine(h, begin, end);
      PrefixHasNone(h, f.start, begin);
      FoundBelow(h[..f.start], h[f.end..], begin, end);
      RemovedIsShorter(RemoveBetween(h, begin, end), begin, end);
    }
  }

  // ---------------------------------------------------------------- where it is put

  /** The line that goes on from `i` ends at `at`, its newline included. */
  predicate LineEndsAt(h: Str, i: nat, at: nat) {
    i <= at <= |h| && (at == |h| || (i < at && h[at - 1] == NL)) && forall k :: i <= k < at - 1 ==> h[k] != NL
  }

  lemma NewlineFound(h: Str, i: nat)
    requires i <= |h|
    ensures var n := IndexFrom(h, [NL], i); LineEndsAt(h, i, if n < 0 then |h| else n + 1)
  {
    var n := IndexFrom(h, [NL], i);
    var last := if n < 0 then |h| else n;
    forall k | i <= k < last ensures h[k] != NL {
      assert h[k..k + 1] == [h[k]];
      assert !StringAt(h, [NL], k);
    }
    if n >= 0 {
      UnitOf(h, [NL], n, 0);
    }
  }

  lemma OneLineEnds(h: Str, marker: Str, i: nat, at: nat)
    requires LineAt(h, marker, i) && NL !in marker && LineEndsAt(h, i, at)
    ensures at == if i + |marker| < |h| then i + |marker| + 1 else |h|
  {
    forall k | i <= k < i + |marker| ensures h[k] != NL {
      UnitOf(h, marker, i, k - i);
    }
  }

  /** The block comes where the marker's first line ends, right below a marker of one line, and nothing else of the host moves. */
  lemma GoesAfterMarker(h: Str, begin: Str, end: Str, c: Str, marker: Str) returns (i: nat, at: nat)
    requires FindBetween(h, begin, end).Nothing? && HasLine(h, marker)
    ensures LineAt(h, marker, i) && NoLineIn(h, marker, 0, i) && LineEndsAt(h, i, at)
    ensures NL !in marker ==> at == if i + |marker| < |h| then i + |marker| + 1 else |h|
    ensures InsertBetween(h, begin, end, c, AfterMarker(marker)) == h[..at] + Block(begin, end, c) + h[at..]
  {
    FirstLineMeaning(h, marker, 0);
    i := FirstLine(h, marker, 0);
    at := InsertedAfter(h, begin, end, c, marker, i);
    if NL !in marker {
      OneLineEnds(h, marker, i, at);
    }
  }

  lemma InsertedAfter(h: Str, begin: Str, end: Str, c: Str, marker: Str, i: nat) returns (at: nat)
    requires FindBetween(h, begin, end).Nothing? && FirstLine(h, marker, 0) == i
    ensures LineEndsAt(h, i, at) && InsertBetween(h, begin, end, c, AfterMarker(marker)) == h[..at] + Block(begin, end, c) + h[at..]
  {
    NewlineFound(h, i);
    at := InsertionPoint(h, AfterMarker(marker));
  }

  /** Otherwise it comes at the end, on a line of its own. */
  lemma GoesLast(h: Str, begin: Str, end: Str, c: Str, anchor: Anchor)
    requires FindBetween(h, begin, end).Nothing? && (anchor.AfterMarker? ==> !HasLine(h, anchor.marker))
    ensures InsertBetween(h, begin, end, c, anchor) == h + (if EndsLine(h) then [] else [NL]) + Block(begin, end, c)
  {
    if anchor.AfterMarker? {
      FirstLineMeaning(h, anchor.marker, 0);
    }
    assert h + [] == h;
    assert h == [] ==> h + Block(begin, end, c) == Block(begin, end, c);
  }

  // ---------------------------------------------------------------- hosts and contents that fail

  /** The marker line alone, without its newline. */
  lemma UnterminatedMarkerExists(marker: Str)
    requires IsLine(marker)
    ensures Unterminated(marker, AfterMarker(marker))
  {
    assert marker[0..|marker|] == marker;
    assert LineAt(marker, marker, 0);
    FirstLineIs(marker, marker, 0, 0);
    if IndexFrom(marker, [NL], 0) != -1 {
      UnitOf(marker, [NL], IndexFrom(marker, [NL], 0), 0);
    }
  }

  /** A begin line without its end line, and the user's own text below it. */
  function Orphan(begin: Str, x: Str): Str { begin + [NL] + x }

  lemma OrphanLine(begin: Str, x: Str)
    requires IsLine(begin)
    ensures LineAt(Orphan(begin, x), begin, 0) && FirstLine(Orphan(begin, x), begin, 0) == 0
  {
    assert Orphan(begin, x)[0..|begin|] == begin;
    FirstLineIs(Orphan(begin, x), begin, 0, 0);
  }

  lemma OrphanHasNoBlock(begin: Str, end: Str, x: Str)
    requires IsLine(begin) && IsLine(end) && !HasLine(x, end)
    ensures FindBetween(Orphan(begin, x), begin, end).Nothing?
  {
    OrphanLine(begin, x);
    if FindBetween(Orphan(begin, x), begin, end).Found? {
      var i, j := FoundEncloses(Orphan(begin, x), begin, end);
      LineShifts(begin + [NL], x, end, j - |begin| - 1);
    }
  }

  /** Inserting below an orphan begin line and removing again deletes the whole host. */
  lemma OrphanLosesHost(begin: Str, end: Str, x: Str, c: Str)
    requires Markers(begin, end) && !HasLine(x, end) && !HasLine(c, end)
    ensures !FreshSpot(Orphan(begin, x), begin, end, Append)
    ensures RemoveBetween(InsertBetween(Orphan(begin, x), begin, end, c, Append), begin, end) == []
  {
    var h := Orphan(begin, x);
    OrphanLine(begin, x);
    OrphanHasNoBlock(begin, end, x);
    StaleSpot(h, begin, end, Append);
    InsertForm(h, begin, end, c, Append);
    WithBlock(Head(h, begin, end, Append), begin, end, c, []);
    SwallowedWhole(h, Head(h, begin, end, Append), begin, end, c);
  }

  lemma SwallowedWhole(h: Str, p: Str, begin: Str, end: Str, c: Str)
    requires Markers(begin, end) && FindBetween(h, begin, end).Nothing? && !HasLine(c, end)
    requires Lines(h, p) && LineAt(p, begin, 0)
    ensures RemoveBetween(With(p, begin, After(end, c, [])), begin, end) == []
  {
    var r, es := With(p, begin, After(end, c, [])), |p| + |begin| + |c| + 2;
    AfterUnits(p, [], begin, end, c);
    OwnEndLine(p, [], begin, end, c);
    KeptLine(p, begin, After(end, c, []), 0);
    FoundIfBelow(r, begin, end, 0, es);
    var i, j := FoundEncloses(r, begin, end);
    assert i == 0 && j <= es;
    NoEndBefore(h, p, begin, end, After(end, c, []), 0, j);
    if j < es {
      EndFromContent(p, [], begin, end, c, j);
    }
  }

  /** Two blocks, one after the other. */
  lemma TwoBlocksFail(begin: Str, end: Str, c: Str)
    requires Markers(begin, end) && NoLastNewline(c) && !HasLine(c, end)
    ensures !OneBlock(Block(begin, end, c) + Block(begin, end, c), begin, end)
  {
    var b := Block(begin, end, c);
    assert [] + b + b == b + b && [] + b + [] == b;
    PlacedIsFound([], b, begin, end, c);
    PlacedIsFound([], [], begin, end, c);
    assert (b + b)[|b|..] == b;
  }

  // ---------------------------------------------------------------- block ids

  lemma MarkersAreLines(id: Str)
    requires NL !in id
    ensures Markers(BeginLine(id), EndLine(id))
  {
  }

  /** The insertion of raw content, whose trailing newlines are dropped, meets the condition of the laws. */
  predicate Lawful(h: Str, id: Str, content: Str, anchor: Anchor) {
    Fits(h, BeginLine(id), EndLine(id), Normalized(content), anchor)
  }

  /** The three laws, for every host and content. */
  lemma SentinelRoundTrip(h: Str, id: Str, content: Str, anchor: Anchor)
    requires NL !in id
    ensures var once := ReplaceOrAppend(h, id, content, anchor);
            && (FindBlock(once, id).Found? && FindBlock(once, id).content == Normalized(content) <==> Lawful(h, id, content, anchor))
            && (ReplaceOrAppend(once, id, content, anchor) == once <==> Lawful(h, id, content, anchor))
            && (Restored(h, BeginLine(id), EndLine(id), Remove(once, id)) <==> Lawful(h, id, content, anchor))
  {
    var begin, end, c := BeginLine(id), EndLine(id), Normalized(content);
    MarkersAreLines(id);
    FindAfterInsert(h, begin, end, c, anchor);
    InsertTwice(h, begin, end, c, anchor);
    RemoveAfterInsert(h, begin, end, c, anchor);
  }

  /** Each part of the condition fails for some input: an unterminated marker, an orphan begin line, an end line in the content. */
  lemma LawsFail(id: Str, x: Str)
    requires NL !in id && !HasLine(x, EndLine(id))
    ensures !Lawful(MARKER, id, [], AfterMarker(MARKER))
    ensures !Lawful(Orphan(BeginLine(id), x), id, [], Append)
    ensures !Lawful([], id, EndLine(id), Append)
  {
    MarkersAreLines(id);
    UnterminatedMarkerExists(MARKER);
    MarkerHasNoBlock(BeginLine(id), EndLine(id));
    OrphanHasNoBlock(BeginLine(id), EndLine(id), x);
    OrphanLine(BeginLine(id), x);
    assert EndLine(id)[0..|EndLine(id)|] == EndLine(id);
    assert LineAt(EndLine(id), EndLine(id), 0);
  }

  /** Some marker line of an adapter. */
  const MARKER: Str := [0x61]

  lemma MarkerHasNoBlock(begin: Str, end: Str)
    requires Markers(begin, end)
    ensures FindBetween(MARKER, begin, end).Nothing?
  {
    if FindBetween(MARKER, begin, end).Found? {
      var i, j := FoundEncloses(MARKER, begin, end);
    }
  }
}
