/** What one step of the parser's loops establishes, stated over the text alone. */
module JsonSteps {
  import opened Text
  import opened JsonGrammar
  import opened JsonScanner
  import opened JsonTokens
  import opened JsonValues

  /** `v`, read from `i` to `j` at `depth` when `nodes` were counted, is acceptable and properly followed. */
  ghost predicate Acceptable(limits: Limits, t: Str, i: nat, nodes: nat, depth: nat, j: nat, v: Json) {
    PaddedAt(t, i, j, v) && Follow(t, j) && Fits(limits, v, depth) && nodes + Nodes(v) <= limits.maxNodes
  }

  /** The same without blanks in front. */
  ghost predicate AcceptableToken(limits: Limits, t: Str, i: nat, nodes: nat, depth: nat, j: nat, v: Json) {
    ValueAt(t, i, j, v) && Follow(t, j) && Fits(limits, v, depth) && nodes + Nodes(v) <= limits.maxNodes
  }

  /** `v` was read from `i` to `pos`, and nothing else could have been. */
  ghost predicate ReadValue(limits: Limits, t: Str, i: nat, nodes0: nat, depth: nat, v: Json, pos: nat, nodes: nat) {
    && PaddedAt(t, i, pos, v) && Fits(limits, v, depth) && nodes == nodes0 + Nodes(v) <= limits.maxNodes
    && (forall j, w :: Acceptable(limits, t, i, nodes0, depth, j, w) ==> j == pos && w == v)
  }

  ghost predicate ReadToken(limits: Limits, t: Str, i: nat, nodes0: nat, depth: nat, v: Json, pos: nat, nodes: nat) {
    && ValueAt(t, i, pos, v) && Fits(limits, v, depth) && nodes == nodes0 + Nodes(v) <= limits.maxNodes
    && (forall j, w :: AcceptableToken(limits, t, i, nodes0, depth, j, w) ==> j == pos && w == v)
  }

  /** Nothing acceptable stands at `i`. */
  ghost predicate Hopeless(limits: Limits, t: Str, i: nat, nodes0: nat, depth: nat) {
    forall j, w :: !Acceptable(limits, t, i, nodes0, depth, j, w)
  }

  ghost predicate HopelessToken(limits: Limits, t: Str, i: nat, nodes0: nat, depth: nat) {
    forall j, w :: !AcceptableToken(limits, t, i, nodes0, depth, j, w)
  }

  lemma Unpad(limits: Limits, t: Str, i: nat, p: nat, nodes: nat, depth: nat, j: nat, v: Json)
    requires Blank(t, i, p) && (p < |t| ==> !IsWs(t[p])) && Acceptable(limits, t, i, nodes, depth, j, v)
    ensures p < |t| && AcceptableToken(limits, t, p, nodes, depth, j, v)
  {
    var a: nat :| Blank(t, i, a) && i <= a < j && ValueAt(t, a, j, v);
    FirstUnit(t, a, j, v);
    assert p < |t|;
    BlankUnique(t, i, a, p);
  }

  lemma PadRead(limits: Limits, t: Str, i: nat, p: nat, nodes0: nat, depth: nat, v: Json, pos: nat, nodes: nat)
    requires Blank(t, i, p) && p < |t| && !IsWs(t[p]) && ReadToken(limits, t, p, nodes0, depth, v, pos, nodes)
    ensures ReadValue(limits, t, i, nodes0, depth, v, pos, nodes)
  {
    assert i <= p < pos;
    forall j, w | Acceptable(limits, t, i, nodes0, depth, j, w) ensures j == pos && w == v {
      Unpad(limits, t, i, p, nodes0, depth, j, w);
    }
  }

  lemma PadHopeless(limits: Limits, t: Str, i: nat, p: nat, nodes0: nat, depth: nat)
    requires Blank(t, i, p) && (p < |t| ==> !IsWs(t[p]) && HopelessToken(limits, t, p, nodes0, depth))
    ensures Hopeless(limits, t, i, nodes0, depth)
  {
    forall j, w ensures !Acceptable(limits, t, i, nodes0, depth, j, w) {
      if Acceptable(limits, t, i, nodes0, depth, j, w) {
        Unpad(limits, t, i, p, nodes0, depth, j, w);
      }
    }
  }

  // ---------------------------------------------------------------- tokens

  lemma StringRead(limits: Limits, t: Str, p: nat, nodes0: nat, depth: nat)
    requires p < |t| && t[p] == QUOTE && depth <= limits.maxDepth && nodes0 + 1 <= limits.maxNodes
    ensures match ScanString(limits, t, p + 1, [])
            case Got(s, end) => ReadToken(limits, t, p, nodes0, depth, String(s), end, nodes0 + 1)
            case Stop(_, _) => HopelessToken(limits, t, p, nodes0, depth)
  {
    var scan := ScanString(limits, t, p + 1, []);
    if scan.Got? {
      StringScanned(limits, t, p);
    }
    forall j, w | AcceptableToken(limits, t, p, nodes0, depth, j, w) ensures scan.Got? && j == scan.pos && w == String(scan.text) {
      FirstUnit(t, p, j, w);
      StringScans(limits, t, p, j, w.s);
    }
  }

  lemma StringScanned(limits: Limits, t: Str, p: nat)
    requires p < |t| && t[p] == QUOTE && ScanString(limits, t, p + 1, []).Got?
    ensures var r := ScanString(limits, t, p + 1, []); StringAt(t, p, r.pos, r.text) && StringFits(limits, r.text)
  {
    var body := StringScanSound(limits, t, p + 1, []);
    assert [] + body == body;
  }

  lemma StringScans(limits: Limits, t: Str, p: nat, j: nat, s: Str)
    requires StringAt(t, p, j, s) && StringFits(limits, s)
    ensures ScanString(limits, t, p + 1, []) == Got(s, j)
  {
    assert [] + s == s;
    StringScanComplete(limits, t, p + 1, j - 1, [], s);
  }

  lemma NumberRead(limits: Limits, t: Str, p: nat, nodes0: nat, depth: nat)
    requires p < |t| && (t[p] == MINUS || IsDigit(t[p])) && depth <= limits.maxDepth && nodes0 + 1 <= limits.maxNodes
    ensures match ScanNumber(limits, t, p)
            case Got(token, end) => ReadToken(limits, t, p, nodes0, depth, Number(token), end, nodes0 + 1)
            case Stop(_, _) => HopelessToken(limits, t, p, nodes0, depth)
  {
    var scan := ScanNumber(limits, t, p);
    if scan.Got? {
      NumberScanSound(limits, t, p);
      NumberStarts(t, p, scan.pos);
    }
    forall j, w | AcceptableToken(limits, t, p, nodes0, depth, j, w) ensures scan.Got? && j == scan.pos && w == Number(scan.text) {
      FirstUnit(t, p, j, w);
      NumberScanComplete(limits, t, p, j);
    }
  }

  predicate StartsWith(t: Str, pos: nat, literal: Str) {
    pos + |literal| <= |t| && t[pos..pos + |literal|] == literal
  }

  predicate LiteralValue(literal: Str, v: Json) {
    (literal == TRUE && v == Bool(true)) || (literal == FALSE && v == Bool(false)) || (literal == NULL && v == Null)
  }

  lemma LiteralRead(limits: Limits, t: Str, p: nat, nodes0: nat, depth: nat, literal: Str, v: Json)
    requires LiteralValue(literal, v) && StartsWith(t, p, literal)
    requires depth <= limits.maxDepth && nodes0 + 1 <= limits.maxNodes
    ensures ReadToken(limits, t, p, nodes0, depth, v, p + |literal|, nodes0 + 1)
  {
    var end := p + |literal|;
    assert t[p..end][0] == t[p];
    assert ValueAt(t, p, end, v);
    forall j, w | AcceptableToken(limits, t, p, nodes0, depth, j, w) ensures j == end && w == v {
      FirstUnit(t, p, j, w);
    }
  }

  lemma NoNodesLeft(limits: Limits, t: Str, p: nat, nodes0: nat, depth: nat)
    requires nodes0 + 1 > limits.maxNodes
    ensures HopelessToken(limits, t, p, nodes0, depth)
  {
    forall j, w ensures !AcceptableToken(limits, t, p, nodes0, depth, j, w) {
      assert Nodes(w) >= 1;
    }
  }

  lemma NoToken(limits: Limits, t: Str, p: nat, nodes0: nat, depth: nat)
    requires p < |t| && t[p] != OPEN_BRACE && t[p] != OPEN_BRACKET && t[p] != QUOTE && t[p] != MINUS && !IsDigit(t[p])
    requires !StartsWith(t, p, TRUE) && !StartsWith(t, p, FALSE) && !StartsWith(t, p, NULL)
    ensures HopelessToken(limits, t, p, nodes0, depth)
  {
    forall j, w ensures !AcceptableToken(limits, t, p, nodes0, depth, j, w) {
      if AcceptableToken(limits, t, p, nodes0, depth, j, w) {
        FirstUnit(t, p, j, w);
      }
    }
  }

  lemma TooDeep(limits: Limits, t: Str, i: nat, nodes0: nat, depth: nat)
    requires depth > limits.maxDepth
    ensures Hopeless(limits, t, i, nodes0, depth)
  {
  }

  // ---------------------------------------------------------------- arrays

  ghost predicate AllFit(limits: Limits, items: seq<Json>, depth: nat) {
    forall i :: 0 <= i < |items| ==> Fits(limits, items[i], depth)
  }

  /** `rest`, from `i` up to the closing bracket before `j`, could complete an array at `depth`. */
  ghost predicate Completes(limits: Limits, t: Str, i: nat, nodes: nat, depth: nat, j: nat, rest: seq<Json>) {
    ItemsAt(t, i, j, rest) && AllFit(limits, rest, depth + 1) && nodes + ItemNodes(rest) <= limits.maxNodes
  }

  /** Items read from `start` to `pos`: whatever follows completes them, and nothing else starts this way. */
  ghost predicate ArrayProgress(limits: Limits, t: Str, start: nat, nodes0: nat, depth: nat, items: seq<Json>, pos: nat, nodes: nat) {
    && AllFit(limits, items, depth + 1) && nodes == nodes0 + ItemNodes(items)
    && (forall j, rest :: ItemsAt(t, pos, j, rest) ==> ItemsAt(t, start, j, items + rest))
    && (forall j, all :: Completes(limits, t, start, nodes0, depth, j, all) ==>
          |items| < |all| && all[..|items|] == items && Completes(limits, t, pos, nodes, depth, j, all[|items|..]))
  }

  lemma {:induction false} ItemNodesAppend(a: seq<Json>, b: seq<Json>)
    ensures ItemNodes(a + b) == ItemNodes(a) + ItemNodes(b)
  {
    if a == [] {
      assert a + b == b;
    } else {
      assert (a + b)[1..] == a[1..] + b;
      ItemNodesAppend(a[1..], b);
    }
  }

  lemma ItemNodesSnoc(items: seq<Json>, v: Json)
    ensures ItemNodes(items + [v]) == ItemNodes(items) + Nodes(v)
  {
    ItemNodesAppend(items, [v]);
    assert [v][1..] == [];
  }

  lemma ArrayStarts(limits: Limits, t: Str, start: nat, nodes0: nat, depth: nat)
    ensures ArrayProgress(limits, t, start, nodes0, depth, [], start, nodes0)
  {
    forall j, rest | ItemsAt(t, start, j, rest) ensures ItemsAt(t, start, j, [] + rest) {
      assert [] + rest == rest;
    }
    forall j, all | Completes(limits, t, start, nodes0, depth, j, all)
      ensures 0 < |all| && all[..0] == [] && Completes(limits, t, start, nodes0, depth, j, all[0..])
    {
      assert all[0..] == all;
    }
  }

  /** The first of the items that complete an array is the value just read. */
  lemma FirstIsRead(limits: Limits, t: Str, i: nat, nodes: nat, depth: nat, j: nat, rest: seq<Json>, v: Json, b: nat, nodes1: nat, c: nat)
    requires Completes(limits, t, i, nodes, depth, j, rest) && ReadValue(limits, t, i, nodes, depth + 1, v, b, nodes1)
    requires Blank(t, b, c) && (c < |t| ==> !IsWs(t[c]))
    ensures rest != [] && rest[0] == v && c < j <= |t|
    ensures if |rest| == 1 then t[c] == CLOSE_BRACKET && j == c + 1
            else t[c] == COMMA && Completes(limits, t, c + 1, nodes1, depth, j, rest[1..])
  {
    var b', c' := ItemsParts(t, i, j, rest);
    assert Acceptable(limits, t, i, nodes, depth + 1, b', rest[0]);
    BlankUnique(t, b, c, c');
  }

  lemma FirstIsAcceptable(limits: Limits, t: Str, i: nat, nodes: nat, depth: nat, j: nat, rest: seq<Json>)
    returns (b: nat)
    requires Completes(limits, t, i, nodes, depth, j, rest)
    ensures rest != [] && Acceptable(limits, t, i, nodes, depth + 1, b, rest[0])
  {
    var c;
    b, c := ItemsParts(t, i, j, rest);
  }

  lemma ArrayGoesOn(limits: Limits, t: Str, start: nat, nodes0: nat, depth: nat, items: seq<Json>, pos: nat, nodes: nat,
                    v: Json, b: nat, nodes1: nat, c: nat)
    requires ArrayProgress(limits, t, start, nodes0, depth, items, pos, nodes)
    requires ReadValue(limits, t, pos, nodes, depth + 1, v, b, nodes1) && Blank(t, b, c) && c < |t| && t[c] == COMMA
    ensures ArrayProgress(limits, t, start, nodes0, depth, items + [v], c + 1, nodes1)
  {
    var more := items + [v];
    ItemNodesSnoc(items, v);
    forall j, rest | ItemsAt(t, c + 1, j, rest) ensures ItemsAt(t, start, j, more + rest) {
      var b', c' := ItemsParts(t, c + 1, j, rest);
      ItemsCons(t, pos, b, c, j, v, rest);
      assert items + ([v] + rest) == more + rest;
    }
    forall j, all | Completes(limits, t, start, nodes0, depth, j, all)
      ensures |more| < |all| && all[..|more|] == more && Completes(limits, t, c + 1, nodes1, depth, j, all[|more|..])
    {
      var rest := all[|items|..];
      FirstIsRead(limits, t, pos, nodes, depth, j, rest, v, b, nodes1, c);
      assert all[..|more|] == all[..|items|] + [rest[0]];
      assert all[|more|..] == rest[1..];
    }
  }

  /** All items were read from `start` up to the closing bracket before `end`. */
  ghost predicate ArrayClosed(limits: Limits, t: Str, start: nat, nodes0: nat, depth: nat, all: seq<Json>, end: nat, nodes: nat) {
    && ItemsAt(t, start, end, all) && AllFit(limits, all, depth + 1) && nodes == nodes0 + ItemNodes(all)
    && OnlyItems(limits, t, start, nodes0, depth, end, all)
  }

  lemma ArrayCloses(limits: Limits, t: Str, start: nat, nodes0: nat, depth: nat, items: seq<Json>, pos: nat, nodes: nat,
                    v: Json, b: nat, nodes1: nat, c: nat)
    requires ArrayProgress(limits, t, start, nodes0, depth, items, pos, nodes)
    requires ReadValue(limits, t, pos, nodes, depth + 1, v, b, nodes1) && Blank(t, b, c) && c < |t| && t[c] == CLOSE_BRACKET
    ensures ArrayClosed(limits, t, start, nodes0, depth, items + [v], c + 1, nodes1)
  {
    ItemNodesSnoc(items, v);
    assert [v] + [] == [v];
    ItemsCons(t, pos, b, c, c + 1, v, []);
    forall j, all | Completes(limits, t, start, nodes0, depth, j, all) ensures j == c + 1 && all == items + [v] {
      var rest := all[|items|..];
      FirstIsRead(limits, t, pos, nodes, depth, j, rest, v, b, nodes1, c);
      assert rest == [v];
      assert all == all[..|items|] + rest;
    }
  }

  /** No items complete an array from here. */
  ghost predicate NoItems(limits: Limits, t: Str, i: nat, nodes: nat, depth: nat) {
    forall j, rest :: !Completes(limits, t, i, nodes, depth, j, rest)
  }

  /** Only `all`, ending at `end`, completes an array from here. */
  ghost predicate OnlyItems(limits: Limits, t: Str, i: nat, nodes: nat, depth: nat, end: nat, all: seq<Json>) {
    forall j, rest :: Completes(limits, t, i, nodes, depth, j, rest) ==> j == end && rest == all
  }

  /** If the next value cannot be read, or neither a comma nor a bracket follows it, no array starts here. */
  lemma ArrayFails(limits: Limits, t: Str, start: nat, nodes0: nat, depth: nat, items: seq<Json>, pos: nat, nodes: nat)
    requires ArrayProgress(limits, t, start, nodes0, depth, items, pos, nodes)
    requires NoItems(limits, t, pos, nodes, depth)
    ensures NoItems(limits, t, start, nodes0, depth)
  {
  }

  lemma ValueFails(limits: Limits, t: Str, pos: nat, nodes: nat, depth: nat)
    requires Hopeless(limits, t, pos, nodes, depth + 1)
    ensures NoItems(limits, t, pos, nodes, depth)
  {
    forall j, rest ensures !Completes(limits, t, pos, nodes, depth, j, rest) {
      if Completes(limits, t, pos, nodes, depth, j, rest) {
        var b := FirstIsAcceptable(limits, t, pos, nodes, depth, j, rest);
      }
    }
  }

  lemma SeparatorFails(limits: Limits, t: Str, pos: nat, nodes: nat, depth: nat, v: Json, b: nat, nodes1: nat, c: nat)
    requires ReadValue(limits, t, pos, nodes, depth + 1, v, b, nodes1) && Blank(t, b, c) && (c < |t| ==> !IsWs(t[c]))
    requires c == |t| || (t[c] != COMMA && t[c] != CLOSE_BRACKET)
    ensures NoItems(limits, t, pos, nodes, depth)
  {
    forall j, rest ensures !Completes(limits, t, pos, nodes, depth, j, rest) {
      if Completes(limits, t, pos, nodes, depth, j, rest) {
        FirstIsRead(limits, t, pos, nodes, depth, j, rest, v, b, nodes1, c);
      }
    }
  }

  lemma UnpadItems(t: Str, i: nat, p: nat, j: nat, items: seq<Json>)
    requires Blank(t, i, p) && (p < |t| ==> !IsWs(t[p])) && ItemsAt(t, i, j, items)
    ensures ItemsAt(t, p, j, items)
  {
    var b: nat, c: nat :| ItemThen(t, i, b, c, j, items);
    UnpadValue(t, i, p, b, items[0]);
    assert ItemThen(t, p, b, c, j, items);
  }

  lemma UnpadValue(t: Str, i: nat, p: nat, j: nat, v: Json)
    requires Blank(t, i, p) && (p < |t| ==> !IsWs(t[p])) && PaddedAt(t, i, j, v)
    ensures p < |t| && PaddedAt(t, p, j, v)
  {
    var a: nat :| Blank(t, i, a) && i <= a < j && ValueAt(t, a, j, v);
    FirstUnit(t, a, j, v);
    assert p < |t|;
    BlankUnique(t, i, a, p);
    assert Blank(t, p, p) && ValueAt(t, p, j, v);
  }

  lemma ArrayDone(limits: Limits, t: Str, open: nat, p: nat, nodes0: nat, depth: nat, all: seq<Json>, end: nat, nodes1: nat)
    requires open < p && open < |t| && t[open] == OPEN_BRACKET && Blank(t, open + 1, p) && p < |t| && !IsWs(t[p]) && t[p] != CLOSE_BRACKET
    requires depth <= limits.maxDepth && nodes1 <= limits.maxNodes && p < end <= |t|
    requires ArrayClosed(limits, t, p, nodes0 + 1, depth, all, end, nodes1)
    ensures ReadToken(limits, t, open, nodes0, depth, Array(all), end, nodes1)
  {
    PadMoreItems(t, open + 1, p, end, all);
    forall j, w | AcceptableToken(limits, t, open, nodes0, depth, j, w) ensures j == end && w == Array(all) {
      OpenedArray(limits, t, open, p, nodes0, depth, j, w);
    }
  }

  lemma OpenedArray(limits: Limits, t: Str, open: nat, p: nat, nodes0: nat, depth: nat, j: nat, w: Json)
    requires open < p && Blank(t, open + 1, p) && p < |t| && !IsWs(t[p]) && t[p] != CLOSE_BRACKET && t[open] == OPEN_BRACKET
    requires AcceptableToken(limits, t, open, nodes0, depth, j, w)
    ensures w.Array? && Completes(limits, t, p, nodes0 + 1, depth, j, w.items)
  {
    FirstUnit(t, open, j, w);
    if w.items == [] {
      var k: nat :| Blank(t, open + 1, k) && k < |t| && t[k] == CLOSE_BRACKET && j == k + 1;
    } else {
      UnpadItems(t, open + 1, p, j, w.items);
    }
  }

  lemma ArrayHopeless(limits: Limits, t: Str, open: nat, p: nat, nodes0: nat, depth: nat)
    requires open < p && Blank(t, open + 1, p) && open < |t| && t[open] == OPEN_BRACKET
    requires p < |t| ==> !IsWs(t[p]) && t[p] != CLOSE_BRACKET
    requires NoItems(limits, t, p, nodes0 + 1, depth)
    ensures HopelessToken(limits, t, open, nodes0, depth)
  {
    forall j, w ensures !AcceptableToken(limits, t, open, nodes0, depth, j, w) {
      if AcceptableToken(limits, t, open, nodes0, depth, j, w) {
        NotAtEnd(limits, t, open, p, nodes0, depth, j, w);
        if p < |t| {
          OpenedArray(limits, t, open, p, nodes0, depth, j, w);
        }
      }
    }
  }

  lemma NotAtEnd(limits: Limits, t: Str, open: nat, p: nat, nodes0: nat, depth: nat, j: nat, w: Json)
    requires open < p && Blank(t, open + 1, p) && open < |t| && t[open] == OPEN_BRACKET && (p < |t| ==> !IsWs(t[p]))
    requires AcceptableToken(limits, t, open, nodes0, depth, j, w)
    ensures p < |t|
  {
    FirstUnit(t, open, j, w);
    if w.items != [] {
      var b, c := ItemsParts(t, open + 1, j, w.items);
      UnpadValue(t, open + 1, p, b, w.items[0]);
    }
  }

  lemma EmptyArray(limits: Limits, t: Str, open: nat, p: nat, nodes0: nat, depth: nat)
    requires open < p && Blank(t, open + 1, p) && p < |t| && t[open] == OPEN_BRACKET && t[p] == CLOSE_BRACKET
    requires depth <= limits.maxDepth && nodes0 + 1 <= limits.maxNodes
    ensures ReadToken(limits, t, open, nodes0, depth, Array([]), p + 1, nodes0 + 1)
  {
    forall j, w | AcceptableToken(limits, t, open, nodes0, depth, j, w) ensures j == p + 1 && w == Array([]) {
      FirstUnit(t, open, j, w);
      if w.items == [] {
        var k: nat :| Blank(t, open + 1, k) && k < |t| && t[k] == CLOSE_BRACKET && j == k + 1;
        BlankUnique(t, open + 1, k, p);
      } else {
        NotEmptyItems(t, open + 1, p, j, w.items);
      }
    }
  }
}
