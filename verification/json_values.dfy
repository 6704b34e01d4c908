/** How values are put together from their parts, and that a text spells at most one value. */
module JsonValues {
  import opened Text
  import opened JsonGrammar
  import opened JsonTokens

  lemma BlankJoin(t: Str, i: nat, p: nat, a: nat)
    requires Blank(t, i, p) && Blank(t, p, a)
    ensures Blank(t, i, a)
  {
  }

  lemma PadMore(t: Str, i: nat, p: nat, j: nat, v: Json)
    requires Blank(t, i, p) && PaddedAt(t, p, j, v)
    ensures PaddedAt(t, i, j, v)
  {
    var a: nat :| Blank(t, p, a) && p <= a < j && ValueAt(t, a, j, v);
    BlankJoin(t, i, p, a);
  }

  lemma PadMoreItems(t: Str, i: nat, p: nat, j: nat, items: seq<Json>)
    requires Blank(t, i, p) && ItemsAt(t, p, j, items)
    ensures ItemsAt(t, i, j, items)
  {
    var b: nat, c: nat :| ItemThen(t, p, b, c, j, items);
    PadMore(t, i, p, b, items[0]);
    assert ItemThen(t, i, b, c, j, items);
  }

  lemma PadMoreMember(t: Str, i: nat, p: nat, j: nat, key: Str, v: Json)
    requires Blank(t, i, p) && MemberAt(t, p, j, key, v)
    ensures MemberAt(t, i, j, key, v)
  {
    var a: nat, b: nat, c: nat :| MemberSplit(t, p, a, b, c, j, key, v);
    BlankJoin(t, i, p, a);
    assert MemberSplit(t, i, a, b, c, j, key, v);
  }

  lemma PadMoreMembers(t: Str, i: nat, p: nat, j: nat, members: map<Str, Json>, keys: set<Str>)
    requires Blank(t, i, p) && MembersAt(t, p, j, members, keys)
    ensures MembersAt(t, i, j, members, keys)
  {
    var key, b: nat, c: nat :| key in keys && MemberThen(t, p, key, b, c, j, members, keys);
    PadMoreMember(t, i, p, b, key, members[key]);
    assert MemberThen(t, i, key, b, c, j, members, keys);
  }

  lemma MemberFromParts(t: Str, i: nat, a: nat, b: nat, c: nat, j: nat, key: Str, v: Json)
    requires Blank(t, i, a) && StringAt(t, a, b, key) && Blank(t, b, c) && c < |t| && t[c] == COLON && c < j && PaddedAt(t, c + 1, j, v)
    ensures MemberAt(t, i, j, key, v)
  {
    assert MemberSplit(t, i, a, b, c, j, key, v);
  }

  lemma ItemsCons(t: Str, i: nat, b: nat, c: nat, j: nat, v: Json, rest: seq<Json>)
    requires PaddedAt(t, i, b, v) && Blank(t, b, c) && c < j <= |t|
    requires if rest == [] then t[c] == CLOSE_BRACKET && j == c + 1 else t[c] == COMMA && ItemsAt(t, c + 1, j, rest)
    ensures ItemsAt(t, i, j, [v] + rest)
    ensures ItemNodes([v] + rest) == Nodes(v) + ItemNodes(rest)
  {
    assert ([v] + rest)[1..] == rest;
    assert ItemThen(t, i, b, c, j, [v] + rest);
  }

  lemma MembersCons(t: Str, i: nat, b: nat, c: nat, j: nat, v: Json, keys: set<Str>, key: Str)
    requires v.Object? && key in keys && keys <= v.members.Keys && i < b && Blank(t, b, c) && c < j <= |t|
    requires MemberAt(t, i, b, key, v.members[key])
    requires if keys == {key} then t[c] == CLOSE_BRACE && j == c + 1 else t[c] == COMMA && MembersAt(t, c + 1, j, v.members, keys - {key})
    ensures MembersAt(t, i, j, v.members, keys)
    ensures MemberNodes(v, keys) == 1 + Nodes(v.members[key]) + MemberNodes(v, keys - {key})
  {
    MemberNodesAny(v, keys, key);
    assert MemberThen(t, i, key, b, c, j, v.members, keys);
  }

  // ---------------------------------------------------------------- one text, one value

  lemma {:induction false} BodyUnique(t: Str, i: nat, j: nat, s: Str, j': nat, s': Str)
    requires i <= j < |t| && i <= j' < |t| && t[j] == QUOTE && t[j'] == QUOTE
    requires BodyAt(t, i, j, s) && BodyAt(t, i, j', s')
    ensures j == j' && s == s'
    decreases j - i
  {
    if i < j && i < j' {
      assert s == [s[0]] + s[1..] && s' == [s'[0]] + s'[1..];
      var next := if IsPlain(t[i]) then i + 1 else if t[i + 1] == 0x75 then i + 6 else i + 2;
      BodyUnique(t, next, j, s[1..], j', s'[1..]);
    }
  }

  lemma StringUnique(t: Str, i: nat, j: nat, s: Str, j': nat, s': Str)
    requires StringAt(t, i, j, s) && StringAt(t, i, j', s')
    ensures j == j' && s == s'
  {
    BodyUnique(t, i + 1, j - 1, s, j' - 1, s');
  }

  lemma NumberUnique(t: Str, i: nat, j: nat, j': nat)
    requires NumberAt(t, i, j) && Follow(t, j) && NumberAt(t, i, j') && Follow(t, j')
    ensures j == j'
  {
    NumberStarts(t, i, j);
    NumberStarts(t, i, j');
    var generous := Limits(0, 0, |t|, _ => true);
    NumberScanComplete(generous, t, i, j);
    NumberScanComplete(generous, t, i, j');
  }

  /** The first character of a value tells its kind and is not a blank. */
  lemma FirstUnit(t: Str, i: nat, j: nat, v: Json)
    requires ValueAt(t, i, j, v)
    ensures i < j <= |t| && !IsWs(t[i])
    ensures v.Null? ==> t[i] == 0x6e
    ensures v.Bool? ==> t[i] == if v.b then 0x74 else 0x66
    ensures v.Number? ==> t[i] == MINUS || IsDigit(t[i])
    ensures v.String? ==> t[i] == QUOTE
    ensures v.Array? ==> t[i] == OPEN_BRACKET
    ensures v.Object? ==> t[i] == OPEN_BRACE
  {
    match v
    case Null => assert t[i..j][0] == t[i];
    case Bool(b) => assert t[i..j][0] == t[i];
    case Number(_) => NumberStarts(t, i, j);
    case _ =>
  }

  lemma BlankUnique(t: Str, i: nat, a: nat, a': nat)
    requires Blank(t, i, a) && Blank(t, i, a') && a < |t| && a' < |t| && !IsWs(t[a]) && !IsWs(t[a'])
    ensures a == a'
  {
  }

  /** Between a value and the comma or bracket after it there are only blanks, so the value is followed properly. */
  lemma FollowsBlank(t: Str, b: nat, c: nat)
    requires Blank(t, b, c) && (c == |t| || t[c] == COMMA || t[c] == CLOSE_BRACKET || t[c] == CLOSE_BRACE)
    ensures Follow(t, b)
  {
  }

  lemma {:induction false} PaddedUnique(t: Str, i: nat, j: nat, v: Json, j': nat, v': Json)
    requires PaddedAt(t, i, j, v) && Follow(t, j) && PaddedAt(t, i, j', v') && Follow(t, j')
    ensures j == j' && v == v'
    decreases if i <= j then j - i else 0, 2
  {
    var a: nat :| Blank(t, i, a) && i <= a < j && ValueAt(t, a, j, v);
    var a': nat :| Blank(t, i, a') && i <= a' < j' && ValueAt(t, a', j', v');
    FirstUnit(t, a, j, v);
    FirstUnit(t, a', j', v');
    BlankUnique(t, i, a, a');
    ValueUnique(t, a, j, v, j', v');
  }

  lemma {:induction false} ValueUnique(t: Str, i: nat, j: nat, v: Json, j': nat, v': Json)
    requires ValueAt(t, i, j, v) && Follow(t, j) && ValueAt(t, i, j', v') && Follow(t, j')
    ensures j == j' && v == v'
    decreases if i <= j then j - i else 0, 1
  {
    FirstUnit(t, i, j, v);
    FirstUnit(t, i, j', v');
    match v
    case Null =>
    case Bool(_) =>
    case Number(_) => NumberUnique(t, i, j, j');
    case String(s) => StringUnique(t, i, j, s, j', v'.s);
    case Array(items) => ArrayUnique(t, i, j, items, j', v'.items);
    case Object(members) => ObjectUnique(t, i, j, members, j', v'.members);
  }

  lemma ItemsParts(t: Str, i: nat, j: nat, items: seq<Json>) returns (b: nat, c: nat)
    requires ItemsAt(t, i, j, items)
    ensures items != [] && i < b && Blank(t, b, c) && c < j <= |t| && PaddedAt(t, i, b, items[0]) && Follow(t, b)
    ensures if |items| == 1 then t[c] == CLOSE_BRACKET && j == c + 1 else t[c] == COMMA && ItemsAt(t, c + 1, j, items[1..])
  {
    b, c :| ItemThen(t, i, b, c, j, items);
    FollowsBlank(t, b, c);
  }

  lemma NotEmptyItems(t: Str, i: nat, k: nat, j: nat, items: seq<Json>)
    requires Blank(t, i, k) && k < |t| && ItemsAt(t, i, j, items)
    ensures t[k] != CLOSE_BRACKET
  {
    var b, c := ItemsParts(t, i, j, items);
    var a: nat :| Blank(t, i, a) && i <= a < b && ValueAt(t, a, b, items[0]);
    FirstUnit(t, a, b, items[0]);
    if !IsWs(t[k]) {
      BlankUnique(t, i, a, k);
    }
  }

  lemma {:induction false} ArrayUnique(t: Str, i: nat, j: nat, items: seq<Json>, j': nat, items': seq<Json>)
    requires ValueAt(t, i, j, Array(items)) && ValueAt(t, i, j', Array(items'))
    ensures j == j' && items == items'
    decreases if i <= j then j - i else 0, 0
  {
    if items == [] {
      var k: nat :| Blank(t, i + 1, k) && k < |t| && t[k] == CLOSE_BRACKET && j == k + 1;
      if items' == [] {
        var k': nat :| Blank(t, i + 1, k') && k' < |t| && t[k'] == CLOSE_BRACKET && j' == k' + 1;
        BlankUnique(t, i + 1, k, k');
      } else {
        NotEmptyItems(t, i + 1, k, j', items');
      }
    } else if items' == [] {
      var k': nat :| Blank(t, i + 1, k') && k' < |t| && t[k'] == CLOSE_BRACKET && j' == k' + 1;
      NotEmptyItems(t, i + 1, k', j, items);
    } else {
      ItemsUnique(t, i + 1, j, items, j', items');
    }
  }

  lemma SameSeq(a: seq<Json>, b: seq<Json>)
    requires a != [] && b != [] && a[0] == b[0] && a[1..] == b[1..]
    ensures a == b
  {
    assert a == [a[0]] + a[1..] && b == [b[0]] + b[1..];
  }

  lemma {:induction false} FirstItemUnique(t: Str, i: nat, j: nat, items: seq<Json>, j': nat, items': seq<Json>) returns (c: nat)
    requires ItemsAt(t, i, j, items) && ItemsAt(t, i, j', items')
    ensures items != [] && items' != [] && items[0] == items'[0] && i < c < j <= |t| && c < j' <= |t|
    ensures t[c] == COMMA ==> ItemsAt(t, c + 1, j, items[1..]) && ItemsAt(t, c + 1, j', items'[1..])
    ensures t[c] != COMMA ==> j == c + 1 && j' == c + 1 && items[1..] == [] && items'[1..] == []
    decreases if i <= j then j - i else 0, 4, 0
  {
    var b;
    b, c := ItemsParts(t, i, j, items);
    var b', c' := ItemsParts(t, i, j', items');
    PaddedUnique(t, i, b, items[0], b', items'[0]);
    BlankUnique(t, b, c, c');
  }

  lemma {:induction false} ItemsUnique(t: Str, i: nat, j: nat, items: seq<Json>, j': nat, items': seq<Json>)
    requires ItemsAt(t, i, j, items) && ItemsAt(t, i, j', items')
    ensures j == j' && items == items'
    decreases if i <= j then j - i else 0, 4, 1
  {
    var c := FirstItemUnique(t, i, j, items, j', items');
    if t[c] == COMMA {
      ItemsUnique(t, c + 1, j, items[1..], j', items'[1..]);
    }
    SameSeq(items, items');
  }

  lemma MemberParts(t: Str, i: nat, j: nat, key: Str, v: Json) returns (a: nat, b: nat, c: nat)
    requires MemberAt(t, i, j, key, v)
    ensures Blank(t, i, a) && StringAt(t, a, b, key) && Blank(t, b, c) && i < c + 1 && c < j && c < |t| && t[c] == COLON
    ensures PaddedAt(t, c + 1, j, v)
  {
    a, b, c :| MemberSplit(t, i, a, b, c, j, key, v);
  }

  lemma {:induction false} MemberUnique(t: Str, i: nat, j: nat, key: Str, v: Json, j': nat, key': Str, v': Json)
    requires MemberAt(t, i, j, key, v) && Follow(t, j) && MemberAt(t, i, j', key', v') && Follow(t, j')
    ensures j == j' && key == key' && v == v'
    decreases if i <= j then j - i else 0, 3
  {
    var a, b, c := MemberParts(t, i, j, key, v);
    var a', b', c' := MemberParts(t, i, j', key', v');
    BlankUnique(t, i, a, a');
    StringUnique(t, a, b, key, b', key');
    BlankUnique(t, b, c, c');
    PaddedUnique(t, c + 1, j, v, j', v');
  }

  lemma MembersParts(t: Str, i: nat, j: nat, members: map<Str, Json>, keys: set<Str>) returns (key: Str, b: nat, c: nat)
    requires MembersAt(t, i, j, members, keys)
    ensures key in keys && keys <= members.Keys && i < b && Blank(t, b, c) && c < j <= |t| && MemberAt(t, i, b, key, members[key]) && Follow(t, b)
    ensures if keys == {key} then t[c] == CLOSE_BRACE && j == c + 1 else t[c] == COMMA && MembersAt(t, c + 1, j, members, keys - {key})
  {
    key, b, c :| key in keys && MemberThen(t, i, key, b, c, j, members, keys);
    FollowsBlank(t, b, c);
  }

  predicate SameOn(m: map<Str, Json>, m': map<Str, Json>, keys: set<Str>) {
    keys <= m.Keys && keys <= m'.Keys && forall k :: k in keys ==> m[k] == m'[k]
  }

  lemma SameOnMore(m: map<Str, Json>, m': map<Str, Json>, keys: set<Str>, keys': set<Str>, key: Str)
    requires key in keys && key in keys' && keys <= m.Keys && keys' <= m'.Keys && m[key] == m'[key]
    requires keys - {key} == keys' - {key} && SameOn(m, m', keys - {key})
    ensures keys == keys' && SameOn(m, m', keys)
  {
    assert keys == keys - {key} + {key} && keys' == keys' - {key} + {key};
  }

  lemma {:induction false} FirstMemberUnique(t: Str, i: nat, j: nat, m: map<Str, Json>, keys: set<Str>,
                                             j': nat, m': map<Str, Json>, keys': set<Str>) returns (key: Str, c: nat)
    requires MembersAt(t, i, j, m, keys) && MembersAt(t, i, j', m', keys')
    ensures key in keys && key in keys' && keys <= m.Keys && keys' <= m'.Keys && m[key] == m'[key]
    ensures i < c < j <= |t| && c < j' <= |t|
    ensures t[c] == COMMA ==> MembersAt(t, c + 1, j, m, keys - {key}) && MembersAt(t, c + 1, j', m', keys' - {key})
    ensures t[c] != COMMA ==> j == c + 1 && j' == c + 1 && keys == {key} && keys' == {key}
    decreases if i <= j then j - i else 0, 6, 0
  {
    var b;
    key, b, c := MembersParts(t, i, j, m, keys);
    var key', b', c' := MembersParts(t, i, j', m', keys');
    MemberUnique(t, i, b, key, m[key], b', key', m'[key']);
    BlankUnique(t, b, c, c');
  }

  lemma {:induction false} MembersUnique(t: Str, i: nat, j: nat, m: map<Str, Json>, keys: set<Str>, j': nat, m': map<Str, Json>, keys': set<Str>)
    requires MembersAt(t, i, j, m, keys) && MembersAt(t, i, j', m', keys')
    ensures j == j' && keys == keys' && SameOn(m, m', keys)
    decreases if i <= j then j - i else 0, 6, 1
  {
    var key, c := FirstMemberUnique(t, i, j, m, keys, j', m', keys');
    if t[c] == COMMA {
      MembersUnique(t, c + 1, j, m, keys - {key}, j', m', keys' - {key});
      SameOnMore(m, m', keys, keys', key);
    }
  }

  lemma NotEmptyMembers(t: Str, i: nat, k: nat, j: nat, members: map<Str, Json>, keys: set<Str>)
    requires Blank(t, i, k) && k < |t| && MembersAt(t, i, j, members, keys)
    ensures t[k] != CLOSE_BRACE
  {
    var key, b, c := MembersParts(t, i, j, members, keys);
    var a, s, d := MemberParts(t, i, b, key, members[key]);
    if !IsWs(t[k]) {
      BlankUnique(t, i, a, k);
    }
  }

  lemma {:induction false} ObjectUnique(t: Str, i: nat, j: nat, m: map<Str, Json>, j': nat, m': map<Str, Json>)
    requires ValueAt(t, i, j, Object(m)) && ValueAt(t, i, j', Object(m'))
    ensures j == j' && m == m'
    decreases if i <= j then j - i else 0, 0
  {
    if m == map[] {
      var k: nat :| Blank(t, i + 1, k) && k < |t| && t[k] == CLOSE_BRACE && j == k + 1;
      if m' == map[] {
        var k': nat :| Blank(t, i + 1, k') && k' < |t| && t[k'] == CLOSE_BRACE && j' == k' + 1;
        BlankUnique(t, i + 1, k, k');
      } else {
        NotEmptyMembers(t, i + 1, k, j', m', m'.Keys);
      }
    } else if m' == map[] {
      var k': nat :| Blank(t, i + 1, k') && k' < |t| && t[k'] == CLOSE_BRACE && j' == k' + 1;
      NotEmptyMembers(t, i + 1, k', j, m, m.Keys);
    } else {
      MembersUnique(t, i + 1, j, m, m.Keys, j', m', m'.Keys);
    }
  }

  /** A text spells at most one value. */
  lemma DocumentUnique(t: Str, v: Json, v': Json)
    requires Document(t, v) && Document(t, v')
    ensures v == v'
  {
    var j: nat :| Blank(t, j, |t|) && PaddedAt(t, 0, j, v);
    var j': nat :| Blank(t, j', |t|) && PaddedAt(t, 0, j', v');
    FollowsBlank(t, j, |t|);
    FollowsBlank(t, j', |t|);
    PaddedUnique(t, 0, j, v, j', v');
  }
}
