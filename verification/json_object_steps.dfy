/** What one step of the parser's object loop establishes, stated over the text alone. */
module JsonObjectSteps {
  import opened Text
  import opened JsonGrammar
  import opened JsonScanner
  import opened JsonTokens
  import opened JsonValues
  import opened JsonSteps

  type Members = map<Str, Json>

  ghost predicate MembersFit(limits: Limits, m: Members, keys: set<Str>, depth: nat) {
    keys <= m.Keys && forall k :: k in keys ==> StringFits(limits, k) && Fits(limits, m[k], depth)
  }

  /** The members of `m` for `keys`, from `i` up to the closing brace before `j`, could complete an object at `depth`. */
  ghost predicate CompletesObject(limits: Limits, t: Str, i: nat, nodes: nat, depth: nat, j: nat, m: Members, keys: set<Str>) {
    MembersAt(t, i, j, m, keys) && MembersFit(limits, m, keys, depth + 1) && nodes + MemberNodes(Object(m), keys) <= limits.maxNodes
  }

  ghost predicate Extends(m: Members, part: Members) {
    part.Keys <= m.Keys && forall k :: k in part ==> m[k] == part[k]
  }

  /** Members read from `start` to `pos`: whatever follows completes them, and nothing else starts this way. */
  ghost predicate ObjectProgress(limits: Limits, t: Str, start: nat, nodes0: nat, depth: nat, read: Members, pos: nat, nodes: nat) {
    && MembersFit(limits, read, read.Keys, depth + 1) && nodes == nodes0 + MemberNodes(Object(read), read.Keys)
    && (forall j, m: Members :: Extends(m, read) && MembersAt(t, pos, j, m, m.Keys - read.Keys) ==> MembersAt(t, start, j, m, m.Keys))
    && (forall j, m: Members {:trigger CompletesObject(limits, t, start, nodes0, depth, j, m, m.Keys)} ::
          CompletesObject(limits, t, start, nodes0, depth, j, m, m.Keys) ==>
            Extends(m, read) && CompletesObject(limits, t, pos, nodes, depth, j, m, m.Keys - read.Keys))
  }

  /** A key and its colon were read from `i` to `pos`, and no other member could have started there. */
  ghost predicate KeyRead(limits: Limits, t: Str, i: nat, read: Members, key: Str, pos: nat) {
    && StringFits(limits, key) && key !in read
    && (forall j, v :: PaddedAt(t, pos, j, v) ==> MemberAt(t, i, j, key, v))
    && (forall j, k, v :: MemberAt(t, i, j, k, v) && StringFits(limits, k) ==> k == key && PaddedAt(t, pos, j, v))
  }

  /** No member with a new, fitting key starts at `i`. */
  ghost predicate NoKey(limits: Limits, t: Str, i: nat, read: Members) {
    forall j, k, v :: !(MemberAt(t, i, j, k, v) && StringFits(limits, k) && k !in read)
  }

  // ---------------------------------------------------------------- keys

  lemma KeyAt(limits: Limits, t: Str, i: nat, a: nat, scan: Scan, c: nat, read: Members)
    requires i <= |t| && Blank(t, i, a) && a < |t| && t[a] == QUOTE && scan == ScanString(limits, t, a + 1, [])
    requires scan.Got? && scan.text !in read && Blank(t, scan.pos, c) && c < |t| && t[c] == COLON
    ensures KeyRead(limits, t, i, read, scan.text, c + 1)
  {
    StringScanned(limits, t, a);
    forall j, v | PaddedAt(t, c + 1, j, v) ensures MemberAt(t, i, j, scan.text, v) {
      MemberFromParts(t, i, a, scan.pos, c, j, scan.text, v);
    }
    forall j, k, v | MemberAt(t, i, j, k, v) && StringFits(limits, k) ensures k == scan.text && PaddedAt(t, c + 1, j, v) {
      var a', b', c' := MemberParts(t, i, j, k, v);
      BlankUnique(t, i, a, a');
      StringScans(limits, t, a, b', k);
      BlankUnique(t, scan.pos, c, c');
    }
  }

  lemma NoKeyAt(limits: Limits, t: Str, i: nat, a: nat, read: Members)
    requires i <= |t| && Blank(t, i, a) && (a < |t| ==> !IsWs(t[a]))
    requires a < |t| && t[a] == QUOTE ==>
               var scan := ScanString(limits, t, a + 1, []);
               scan.Stop? || scan.text in read || forall c: nat :: Blank(t, scan.pos, c) && c < |t| ==> t[c] != COLON
    ensures NoKey(limits, t, i, read)
  {
    forall j, k, v ensures !(MemberAt(t, i, j, k, v) && StringFits(limits, k) && k !in read) {
      if MemberAt(t, i, j, k, v) && StringFits(limits, k) && k !in read {
        var a', b', c' := MemberParts(t, i, j, k, v);
        QuoteHere(t, i, a, a');
        StringScans(limits, t, a, b', k);
      }
    }
  }

  lemma QuoteHere(t: Str, i: nat, a: nat, a': nat)
    requires Blank(t, i, a) && (a < |t| ==> !IsWs(t[a])) && Blank(t, i, a') && a' < |t| && t[a'] == QUOTE
    ensures a == a'
  {
  }

  lemma NoQuote(limits: Limits, t: Str, i: nat, a: nat, read: Members)
    requires i <= |t| && Blank(t, i, a) && (a < |t| ==> !IsWs(t[a]) && t[a] != QUOTE)
    ensures NoKey(limits, t, i, read)
  {
    NoKeyAt(limits, t, i, a, read);
  }

  lemma KeyUnusable(limits: Limits, t: Str, i: nat, a: nat, read: Members, scan: Scan)
    requires i <= |t| && Blank(t, i, a) && a < |t| && t[a] == QUOTE && scan == ScanString(limits, t, a + 1, [])
    requires scan.Stop? || scan.text in read
    ensures NoKey(limits, t, i, read)
  {
    NoKeyAt(limits, t, i, a, read);
  }

  lemma NoColon(limits: Limits, t: Str, i: nat, a: nat, read: Members, scan: Scan, c: nat)
    requires i <= |t| && Blank(t, i, a) && a < |t| && t[a] == QUOTE && scan == ScanString(limits, t, a + 1, []) && scan.Got?
    requires Blank(t, scan.pos, c) && (c < |t| ==> !IsWs(t[c]) && t[c] != COLON)
    ensures NoKey(limits, t, i, read)
  {
    ElsewhereNoColon(t, scan.pos, c);
    NoKeyAt(limits, t, i, a, read);
  }

  lemma ElsewhereNoColon(t: Str, b: nat, c: nat)
    requires Blank(t, b, c) && (c < |t| ==> !IsWs(t[c]) && t[c] != COLON)
    ensures forall c': nat :: Blank(t, b, c') && c' < |t| ==> t[c'] != COLON
  {
  }

  // ---------------------------------------------------------------- members

  lemma ObjectStarts(limits: Limits, t: Str, start: nat, nodes0: nat, depth: nat)
    ensures ObjectProgress(limits, t, start, nodes0, depth, map[], start, nodes0)
  {
    var none: Members := map[];
    forall m: Members ensures m.Keys - none.Keys == m.Keys {
    }
  }

  lemma FirstMember(limits: Limits, t: Str, i: nat, nodes: nat, depth: nat, j: nat, m: Members, keys: set<Str>)
    returns (key: Str, b: nat, c: nat)
    requires CompletesObject(limits, t, i, nodes, depth, j, m, keys)
    ensures key in keys && keys <= m.Keys && MemberAt(t, i, b, key, m[key]) && Follow(t, b) && Blank(t, b, c) && c < j <= |t|
    ensures StringFits(limits, key) && Fits(limits, m[key], depth + 1) && nodes + 1 + Nodes(m[key]) <= limits.maxNodes
    ensures if keys == {key} then t[c] == CLOSE_BRACE && j == c + 1
            else t[c] == COMMA && CompletesObject(limits, t, c + 1, nodes + 1 + Nodes(m[key]), depth, j, m, keys - {key})
  {
    key, b, c := MembersParts(t, i, j, m, keys);
    MemberNodesAny(Object(m), keys, key);
  }

  /** The first of the members that complete an object is the one just read. */
  lemma FirstMemberIsRead(limits: Limits, t: Str, i: nat, nodes: nat, depth: nat, j: nat, m: Members, keys: set<Str>,
                          read: Members, key: Str, colon: nat, v: Json, b: nat, nodes1: nat, c: nat)
    requires CompletesObject(limits, t, i, nodes, depth, j, m, keys) && KeyRead(limits, t, i, read, key, colon)
    requires ReadValue(limits, t, colon, nodes + 1, depth + 1, v, b, nodes1) && Blank(t, b, c) && (c < |t| ==> !IsWs(t[c]))
    ensures key in keys && keys <= m.Keys && m[key] == v && c < j <= |t|
    ensures if keys == {key} then t[c] == CLOSE_BRACE && j == c + 1
            else t[c] == COMMA && CompletesObject(limits, t, c + 1, nodes1, depth, j, m, keys - {key})
  {
    var k, b', c' := FirstMember(limits, t, i, nodes, depth, j, m, keys);
    assert Acceptable(limits, t, colon, nodes + 1, depth + 1, b', m[k]);
    BlankUnique(t, b, c, c');
  }

  lemma ExtendsMore(m: Members, read: Members, key: Str, v: Json)
    requires key !in read
    ensures Extends(m, read[key := v]) <==> Extends(m, read) && key in m && m[key] == v
    ensures m.Keys - read[key := v].Keys == m.Keys - read.Keys - {key}
  {
    var more := read[key := v];
    assert more.Keys == read.Keys + {key};
    if Extends(m, more) {
      assert m[key] == more[key];
      forall k | k in read ensures m[k] == read[k] {
        assert more[k] == read[k];
      }
    }
  }

  lemma MemberNodesSame(a: Members, b: Members, keys: set<Str>)
    requires keys <= a.Keys && keys <= b.Keys && forall k :: k in keys ==> a[k] == b[k]
    ensures MemberNodes(Object(a), keys) == MemberNodes(Object(b), keys)
    decreases |keys|
  {
    if keys != {} {
      var k :| k in keys;
      MemberNodesAny(Object(a), keys, k);
      MemberNodesAny(Object(b), keys, k);
      MemberNodesSame(a, b, keys - {k});
    }
  }

  lemma NodesMore(read: Members, key: Str, v: Json)
    requires key !in read
    ensures MemberNodes(Object(read[key := v]), read[key := v].Keys) == MemberNodes(Object(read), read.Keys) + 1 + Nodes(v)
  {
    var more := read[key := v];
    MemberNodesAny(Object(more), more.Keys, key);
    assert more.Keys - {key} == read.Keys;
    MemberNodesSame(more, read, read.Keys);
  }

  lemma ContinuesMore(t: Str, i: nat, b: nat, c: nat, j: nat, m: Members, keys: set<Str>, key: Str)
    requires key in keys && keys <= m.Keys && i < b && Blank(t, b, c) && c < |t| && t[c] == COMMA
    requires MemberAt(t, i, b, key, m[key]) && MembersAt(t, c + 1, j, m, keys - {key})
    ensures MembersAt(t, i, j, m, keys)
  {
    var k', b', c' := MembersParts(t, c + 1, j, m, keys - {key});
    assert keys != {key};
    MembersCons(t, i, b, c, j, Object(m), keys, key);
  }

  lemma ObjectGoesOn(limits: Limits, t: Str, start: nat, nodes0: nat, depth: nat, read: Members, pos: nat, nodes: nat,
                     key: Str, colon: nat, v: Json, b: nat, nodes1: nat, c: nat)
    requires ObjectProgress(limits, t, start, nodes0, depth, read, pos, nodes) && KeyRead(limits, t, pos, read, key, colon) && pos < b
    requires ReadValue(limits, t, colon, nodes + 1, depth + 1, v, b, nodes1) && Blank(t, b, c) && c < |t| && t[c] == COMMA
    ensures ObjectProgress(limits, t, start, nodes0, depth, read[key := v], c + 1, nodes1)
  {
    var more := read[key := v];
    NodesMore(read, key, v);
    assert MembersFit(limits, more, more.Keys, depth + 1);
    forall j, m: Members | Extends(m, more) && MembersAt(t, c + 1, j, m, m.Keys - more.Keys) ensures MembersAt(t, start, j, m, m.Keys) {
      ExtendsMore(m, read, key, v);
      ContinuesMore(t, pos, b, c, j, m, m.Keys - read.Keys, key);
    }
    forall j, m: Members | CompletesObject(limits, t, start, nodes0, depth, j, m, m.Keys)
      ensures Extends(m, more) && CompletesObject(limits, t, c + 1, nodes1, depth, j, m, m.Keys - more.Keys)
    {
      ExtendsMore(m, read, key, v);
      FirstMemberIsRead(limits, t, pos, nodes, depth, j, m, m.Keys - read.Keys, read, key, colon, v, b, nodes1, c);
    }
  }

  /** No members complete an object from here. */
  ghost predicate NoMembers(limits: Limits, t: Str, i: nat, nodes: nat, depth: nat, read: Members) {
    forall j, m: Members :: Extends(m, read) ==> !CompletesObject(limits, t, i, nodes, depth, j, m, m.Keys - read.Keys)
  }

  ghost predicate OnlyMembers(limits: Limits, t: Str, i: nat, nodes: nat, depth: nat, end: nat, all: Members) {
    forall j, m: Members :: CompletesObject(limits, t, i, nodes, depth, j, m, m.Keys) ==> j == end && m == all
  }

  /** All members were read from `start` up to the closing brace before `end`. */
  ghost predicate ObjectClosed(limits: Limits, t: Str, start: nat, nodes0: nat, depth: nat, all: Members, end: nat, nodes: nat) {
    && all != map[] && MembersAt(t, start, end, all, all.Keys) && MembersFit(limits, all, all.Keys, depth + 1)
    && nodes == nodes0 + MemberNodes(Object(all), all.Keys)
    && OnlyMembers(limits, t, start, nodes0, depth, end, all)
  }

  lemma ObjectCloses(limits: Limits, t: Str, start: nat, nodes0: nat, depth: nat, read: Members, pos: nat, nodes: nat,
                     key: Str, colon: nat, v: Json, b: nat, nodes1: nat, c: nat)
    requires ObjectProgress(limits, t, start, nodes0, depth, read, pos, nodes) && KeyRead(limits, t, pos, read, key, colon) && pos < b
    requires ReadValue(limits, t, colon, nodes + 1, depth + 1, v, b, nodes1) && Blank(t, b, c) && c < |t| && t[c] == CLOSE_BRACE
    ensures ObjectClosed(limits, t, start, nodes0, depth, read[key := v], c + 1, nodes1)
  {
    var all := read[key := v];
    NodesMore(read, key, v);
    ExtendsMore(all, read, key, v);
    assert all.Keys - read.Keys == {key};
    assert key in all;
    MembersCons(t, pos, b, c, c + 1, Object(all), {key}, key);
    forall j, m: Members | CompletesObject(limits, t, start, nodes0, depth, j, m, m.Keys) ensures j == c + 1 && m == all {
      FirstMemberIsRead(limits, t, pos, nodes, depth, j, m, m.Keys - read.Keys, read, key, colon, v, b, nodes1, c);
      ExtendsMore(m, read, key, v);
      assert m.Keys == read.Keys + {key};
      assert m.Keys == all.Keys;
    }
  }

  lemma ObjectFails(limits: Limits, t: Str, start: nat, nodes0: nat, depth: nat, read: Members, pos: nat, nodes: nat)
    requires ObjectProgress(limits, t, start, nodes0, depth, read, pos, nodes) && NoMembers(limits, t, pos, nodes, depth, read)
    ensures NoMembers(limits, t, start, nodes0, depth, map[])
  {
    var none: Members := map[];
    forall j, m: Members | Extends(m, none) ensures !CompletesObject(limits, t, start, nodes0, depth, j, m, m.Keys - none.Keys) {
      assert m.Keys - none.Keys == m.Keys;
    }
  }

  lemma KeyFails(limits: Limits, t: Str, pos: nat, nodes: nat, depth: nat, read: Members)
    requires NoKey(limits, t, pos, read) || nodes + 1 > limits.maxNodes
    ensures NoMembers(limits, t, pos, nodes, depth, read)
  {
    forall j, m: Members | Extends(m, read) ensures !CompletesObject(limits, t, pos, nodes, depth, j, m, m.Keys - read.Keys) {
      if CompletesObject(limits, t, pos, nodes, depth, j, m, m.Keys - read.Keys) {
        var k, b, c := FirstMember(limits, t, pos, nodes, depth, j, m, m.Keys - read.Keys);
      }
    }
  }

  lemma FirstValueAcceptable(limits: Limits, t: Str, i: nat, nodes: nat, depth: nat, j: nat, m: Members, keys: set<Str>,
                             read: Members, key: Str, colon: nat) returns (b: nat)
    requires CompletesObject(limits, t, i, nodes, depth, j, m, keys) && KeyRead(limits, t, i, read, key, colon)
    ensures key in keys && keys <= m.Keys && Acceptable(limits, t, colon, nodes + 1, depth + 1, b, m[key])
  {
    var k, c;
    k, b, c := FirstMember(limits, t, i, nodes, depth, j, m, keys);
  }

  lemma MemberValueFails(limits: Limits, t: Str, pos: nat, nodes: nat, depth: nat, read: Members, key: Str, colon: nat)
    requires KeyRead(limits, t, pos, read, key, colon) && Hopeless(limits, t, colon, nodes + 1, depth + 1)
    ensures NoMembers(limits, t, pos, nodes, depth, read)
  {
    forall j, m: Members | Extends(m, read) ensures !CompletesObject(limits, t, pos, nodes, depth, j, m, m.Keys - read.Keys) {
      if CompletesObject(limits, t, pos, nodes, depth, j, m, m.Keys - read.Keys) {
        var b := FirstValueAcceptable(limits, t, pos, nodes, depth, j, m, m.Keys - read.Keys, read, key, colon);
      }
    }
  }

  lemma MemberSeparatorFails(limits: Limits, t: Str, pos: nat, nodes: nat, depth: nat, read: Members, key: Str, colon: nat,
                             v: Json, b: nat, nodes1: nat, c: nat)
    requires KeyRead(limits, t, pos, read, key, colon) && ReadValue(limits, t, colon, nodes + 1, depth + 1, v, b, nodes1)
    requires Blank(t, b, c) && (c < |t| ==> !IsWs(t[c])) && (c == |t| || (t[c] != COMMA && t[c] != CLOSE_BRACE))
    ensures NoMembers(limits, t, pos, nodes, depth, read)
  {
    forall j, m: Members | Extends(m, read) ensures !CompletesObject(limits, t, pos, nodes, depth, j, m, m.Keys - read.Keys) {
      if CompletesObject(limits, t, pos, nodes, depth, j, m, m.Keys - read.Keys) {
        FirstMemberIsRead(limits, t, pos, nodes, depth, j, m, m.Keys - read.Keys, read, key, colon, v, b, nodes1, c);
      }
    }
  }

  // ---------------------------------------------------------------- whole objects

  lemma UnpadMembers(t: Str, i: nat, p: nat, j: nat, m: Members, keys: set<Str>)
    requires Blank(t, i, p) && (p < |t| ==> !IsWs(t[p])) && MembersAt(t, i, j, m, keys)
    ensures p < |t| && t[p] == QUOTE && MembersAt(t, p, j, m, keys)
  {
    var key, b, c := MembersParts(t, i, j, m, keys);
    var a, s, d := MemberParts(t, i, b, key, m[key]);
    QuoteHere(t, i, p, a);
    assert Blank(t, p, p);
    MemberFromParts(t, p, p, s, d, b, key, m[key]);
    if keys == {key} {
      assert MemberThen(t, p, key, b, c, j, m, keys);
    } else {
      assert MemberThen(t, p, key, b, c, j, m, keys);
    }
  }

  lemma OpenedObject(limits: Limits, t: Str, open: nat, p: nat, nodes0: nat, depth: nat, j: nat, w: Json)
    requires open < p && open < |t| && t[open] == OPEN_BRACE && Blank(t, open + 1, p) && (p < |t| ==> !IsWs(t[p]))
    requires AcceptableToken(limits, t, open, nodes0, depth, j, w)
    ensures p < |t| && w.Object?
    ensures t[p] == CLOSE_BRACE ==> w == Object(map[]) && j == p + 1
    ensures t[p] != CLOSE_BRACE ==> CompletesObject(limits, t, p, nodes0 + 1, depth, j, w.members, w.members.Keys)
  {
    FirstUnit(t, open, j, w);
    if w.members == map[] {
      var k: nat :| Blank(t, open + 1, k) && k < |t| && t[k] == CLOSE_BRACE && j == k + 1;
      assert p == k;
    } else {
      UnpadMembers(t, open + 1, p, j, w.members, w.members.Keys);
    }
  }

  lemma EmptyObject(limits: Limits, t: Str, open: nat, p: nat, nodes0: nat, depth: nat)
    requires open < p && Blank(t, open + 1, p) && p < |t| && t[open] == OPEN_BRACE && t[p] == CLOSE_BRACE
    requires depth <= limits.maxDepth && nodes0 + 1 <= limits.maxNodes
    ensures ReadToken(limits, t, open, nodes0, depth, Object(map[]), p + 1, nodes0 + 1)
  {
    forall j, w | AcceptableToken(limits, t, open, nodes0, depth, j, w) ensures j == p + 1 && w == Object(map[]) {
      OpenedObject(limits, t, open, p, nodes0, depth, j, w);
    }
  }

  lemma ObjectDone(limits: Limits, t: Str, open: nat, p: nat, nodes0: nat, depth: nat, all: Members, end: nat, nodes1: nat)
    requires open < p && open < |t| && t[open] == OPEN_BRACE && Blank(t, open + 1, p) && p < |t| && !IsWs(t[p]) && t[p] != CLOSE_BRACE
    requires depth <= limits.maxDepth && nodes1 <= limits.maxNodes && p < end <= |t|
    requires ObjectClosed(limits, t, p, nodes0 + 1, depth, all, end, nodes1)
    ensures ReadToken(limits, t, open, nodes0, depth, Object(all), end, nodes1)
  {
    PadMoreMembers(t, open + 1, p, end, all, all.Keys);
    forall j, w | AcceptableToken(limits, t, open, nodes0, depth, j, w) ensures j == end && w == Object(all) {
      OpenedObject(limits, t, open, p, nodes0, depth, j, w);
    }
  }

  lemma NoMembersAtAll(limits: Limits, t: Str, p: nat, nodes: nat, depth: nat)
    requires NoMembers(limits, t, p, nodes, depth, map[])
    ensures forall j, m: Members :: !CompletesObject(limits, t, p, nodes, depth, j, m, m.Keys)
  {
    var none: Members := map[];
    forall j, m: Members ensures !CompletesObject(limits, t, p, nodes, depth, j, m, m.Keys) {
      assert Extends(m, none) && m.Keys - none.Keys == m.Keys;
    }
  }

  lemma ObjectHopeless(limits: Limits, t: Str, open: nat, p: nat, nodes0: nat, depth: nat)
    requires open < p && open < |t| && t[open] == OPEN_BRACE && Blank(t, open + 1, p) && (p < |t| ==> !IsWs(t[p]) && t[p] != CLOSE_BRACE)
    requires NoMembers(limits, t, p, nodes0 + 1, depth, map[])
    ensures HopelessToken(limits, t, open, nodes0, depth)
  {
    forall j, w ensures !AcceptableToken(limits, t, open, nodes0, depth, j, w) {
      if AcceptableToken(limits, t, open, nodes0, depth, j, w) {
        NoMembersAtAll(limits, t, p, nodes0 + 1, depth);
        OpenedObject(limits, t, open, p, nodes0, depth, j, w);
      }
    }
  }
}
