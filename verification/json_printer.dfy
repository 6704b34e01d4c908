/** `canonicalJson`: JSON text without blanks, object keys sorted; the parser is its left inverse. */
module JsonPrinter {
  import opened Text
  import opened JsonGrammar
  import opened JsonTokens
  import opened JsonValues
  import StrictJson
  import SortedKeys

  // ---------------------------------------------------------------- strings

  function LowerHex(n: nat): (c: Unit)
    requires n < 16
    ensures HexDigit(c) == n
  {
    if n < 10 then 0x30 + n else 0x61 + (n - 10)
  }

  function FourHex(a: nat, b: nat, c: nat, d: nat): (r: Str)
    requires a < 16 && b < 16 && c < 16 && d < 16
    ensures |r| == 6 && r[0] == BACKSLASH && r[1] == 0x75 && HexAt(r, 2) && HexValue(r, 2) == a * 4096 + b * 256 + c * 16 + d
  {
    [BACKSLASH, 0x75, LowerHex(a), LowerHex(b), LowerHex(c), LowerHex(d)]
  }

  function UnicodeEscape(u: Unit): (r: Str)
    ensures |r| == 6 && r[0] == BACKSLASH && r[1] == 0x75 && HexAt(r, 2) && HexValue(r, 2) == u
  {
    var n: int := u;
    var q1 := n / 16;
    var q2 := q1 / 16;
    var q3 := q2 / 16;
    FourHex(q3, q2 % 16, q1 % 16, n % 16)
  }

  /** One code unit inside the quotes; surrogates come here only when they are not half of a pair. */
  function UnitText(u: Unit): Str {
    if u == QUOTE then [BACKSLASH, QUOTE]
    else if u == BACKSLASH then [BACKSLASH, BACKSLASH]
    else if u == 0x08 then [BACKSLASH, 0x62]
    else if u == 0x0c then [BACKSLASH, 0x66]
    else if u == 0x0a then [BACKSLASH, 0x6e]
    else if u == 0x0d then [BACKSLASH, 0x72]
    else if u == 0x09 then [BACKSLASH, 0x74]
    else if u < 0x20 || IsHigh(u) || IsLow(u) then UnicodeEscape(u)
    else [u]
  }

  function StringBody(s: Str): Str {
    if s == [] then []
    else if |s| > 1 && IsHigh(s[0]) && IsLow(s[1]) then [s[0], s[1]] + StringBody(s[2..])
    else UnitText(s[0]) + StringBody(s[1..])
  }

  function Quoted(s: Str): Str { [QUOTE] + StringBody(s) + [QUOTE] }

  // ---------------------------------------------------------------- values

  function Canonical(v: Json): Str
    decreases v, 1, 0
  {
    match v
    case Null => NULL
    case Bool(b) => if b then TRUE else FALSE
    case Number(token) => token
    case String(s) => Quoted(s)
    case Array(items) => [OPEN_BRACKET] + CanonicalItems(items) + [CLOSE_BRACKET]
    case Object(members) => [OPEN_BRACE] + CanonicalMembers(v, SortedKeys.Ordered(members.Keys)) + [CLOSE_BRACE]
  }

  function CanonicalItems(items: seq<Json>): Str
    decreases items, 0, 0
  {
    if items == [] then [] else if |items| == 1 then Canonical(items[0])
    else Canonical(items[0]) + [COMMA] + CanonicalItems(items[1..])
  }

  function CanonicalMember(v: Json, key: Str): Str
    requires v.Object? && key in v.members
    decreases v, 0, 0
  {
    Quoted(key) + [COLON] + Canonical(v.members[key])
  }

  function CanonicalMembers(v: Json, keys: seq<Str>): Str
    requires v.Object? && forall k :: k in keys ==> k in v.members
    decreases v, 0, |keys| + 1
  {
    if keys == [] then [] else if |keys| == 1 then CanonicalMember(v, keys[0])
    else CanonicalMember(v, keys[0]) + [COMMA] + CanonicalMembers(v, keys[1..])
  }

  // ---------------------------------------------------------------- what is printed spells the value

  /** The text from `i` to `j` reads `s`. */
  predicate Reads(t: Str, i: nat, j: nat, s: Str) { i <= j <= |t| && t[i..j] == s }

  lemma ReadsParts(t: Str, i: nat, j: nat, a: Str, b: Str) returns (k: nat)
    requires Reads(t, i, j, a + b)
    ensures Reads(t, i, k, a) && Reads(t, k, j, b) && k == i + |a|
  {
    k := i + |a|;
    var s := t[i..j];
    assert s[..|a|] == a && s[|a|..] == b;
    assert s[..|a|] == t[i..k] && s[|a|..] == t[k..j];
  }

  lemma ReadsUnit(t: Str, i: nat, j: nat, u: Unit)
    requires Reads(t, i, j, [u])
    ensures i < |t| && j == i + 1 && t[i] == u
  {
    assert t[i..j][0] == t[i];
  }

  /** `s` between two marks. */
  lemma ReadsBetween(t: Str, i: nat, j: nat, open: Unit, s: Str, close: Unit)
    requires Reads(t, i, j, [open] + s + [close])
    ensures i + 2 <= j <= |t| && t[i] == open && t[j - 1] == close && Reads(t, i + 1, j - 1, s)
  {
    var k := ReadsParts(t, i, j, [open] + s, [close]);
    var m := ReadsParts(t, i, k, [open], s);
    ReadsUnit(t, i, m, open);
    ReadsUnit(t, k, j, close);
  }

  /** Two texts with a mark between them. */
  lemma ReadsAround(t: Str, i: nat, j: nat, a: Str, mark: Unit, b: Str) returns (k: nat)
    requires Reads(t, i, j, a + [mark] + b)
    ensures k < |t| && Reads(t, i, k, a) && t[k] == mark && Reads(t, k + 1, j, b)
  {
    var m := ReadsParts(t, i, j, a + [mark], b);
    k := ReadsParts(t, i, m, a, [mark]);
    ReadsUnit(t, k, m, mark);
  }

  lemma ReadsAt(t: Str, i: nat, j: nat, s: Str, k: nat)
    requires Reads(t, i, j, s) && k < |s|
    ensures i + k < j && t[i + k] == s[k]
  {
    assert t[i..j][k] == t[i + k];
  }

  lemma EscapeSpells(t: Str, i: nat, j: nat, u: Unit)
    requires Reads(t, i, j, UnicodeEscape(u))
    ensures BodyAt(t, i, j, [u])
  {
    var s := UnicodeEscape(u);
    ReadsAt(t, i, j, s, 0);
    ReadsAt(t, i, j, s, 1);
    ReadsAt(t, i, j, s, 2);
    ReadsAt(t, i, j, s, 3);
    ReadsAt(t, i, j, s, 4);
    ReadsAt(t, i, j, s, 5);
  }

  lemma UnitSpells(t: Str, i: nat, j: nat, u: Unit)
    requires Reads(t, i, j, UnitText(u))
    ensures BodyAt(t, i, j, [u])
  {
    var s := UnitText(u);
    if |s| == 6 {
      EscapeSpells(t, i, j, u);
    } else {
      ReadsAt(t, i, j, s, 0);
      if |s| == 2 {
        ReadsAt(t, i, j, s, 1);
      }
    }
  }

  lemma PairSpells(t: Str, i: nat, j: nat, high: Unit, low: Unit)
    requires Reads(t, i, j, [high, low]) && IsHigh(high) && IsLow(low)
    ensures BodyAt(t, i, j, [high, low])
  {
    ReadsAt(t, i, j, [high, low], 0);
    ReadsAt(t, i, j, [high, low], 1);
    assert [high, low][1..] == [low];
  }

  /** The first unit or pair of a string is spelled up to `k`; the rest of the string follows. */
  lemma HeadSpells(t: Str, i: nat, j: nat, s: Str) returns (n: nat, k: nat)
    requires s != [] && Reads(t, i, j, StringBody(s))
    ensures 1 <= n <= |s| && i <= k <= j && BodyAt(t, i, k, s[..n]) && Reads(t, k, j, StringBody(s[n..]))
  {
    if |s| > 1 && IsHigh(s[0]) && IsLow(s[1]) {
      n := 2;
      k := ReadsParts(t, i, j, [s[0], s[1]], StringBody(s[2..]));
      PairSpells(t, i, k, s[0], s[1]);
      assert s[..2] == [s[0], s[1]];
    } else {
      n := 1;
      k := ReadsParts(t, i, j, UnitText(s[0]), StringBody(s[1..]));
      UnitSpells(t, i, k, s[0]);
      assert s[..1] == [s[0]];
    }
  }

  lemma {:induction false} BodySpells(t: Str, i: nat, j: nat, s: Str)
    requires Reads(t, i, j, StringBody(s))
    ensures BodyAt(t, i, j, s)
    decreases |s|
  {
    if s != [] {
      var n, k := HeadSpells(t, i, j, s);
      BodySpells(t, k, j, s[n..]);
      BodyTogether(t, i, k, j, s, n);
    }
  }

  lemma BodyTogether(t: Str, i: nat, k: nat, j: nat, s: Str, n: nat)
    requires i <= k <= j <= |t| && n <= |s| && BodyAt(t, i, k, s[..n]) && BodyAt(t, k, j, s[n..])
    ensures BodyAt(t, i, j, s)
  {
    BodyAppend(t, i, k, j, s[..n], s[n..]);
    assert s == s[..n] + s[n..];
  }

  lemma QuotedSpells(t: Str, i: nat, j: nat, s: Str)
    requires Reads(t, i, j, Quoted(s))
    ensures StringAt(t, i, j, s)
  {
    ReadsBetween(t, i, j, QUOTE, StringBody(s), QUOTE);
    BodySpells(t, i + 1, j - 1, s);
  }

  // ---------------------------------------------------------------- numbers

  predicate Copied(token: Str, t: Str, i: nat) {
    i + |token| <= |t| && forall k: nat :: k < |token| ==> t[i + k] == token[k]
  }

  /** A number token means the same wherever it stands. */
  lemma NumberMoves(token: Str, t: Str, i: nat, j: nat)
    requires NumberAt(token, 0, |token|) && Reads(t, i, j, token)
    ensures NumberAt(t, i, j)
  {
    var a: nat, b: nat :| IntegerAt(token, 0, a) && FractionAt(token, a, b) && ExponentAt(token, b, |token|);
    forall k: nat | k < |token| ensures t[i + k] == token[k] {
      ReadsAt(t, i, j, token, k);
    }
    IntegerMoves(token, t, i, a);
    FractionMoves(token, t, i, a, b);
    ExponentMoves(token, t, i, b, |token|);
  }

  lemma DigitsMove(token: Str, t: Str, i: nat, a: nat, b: nat)
    requires Copied(token, t, i) && DigitsAt(token, a, b)
    ensures DigitsAt(t, i + a, i + b)
  {
    forall k | i + a <= k < i + b ensures IsDigit(t[k]) {
      assert t[i + (k - i)] == token[k - i];
    }
  }

  lemma IntegerMoves(token: Str, t: Str, i: nat, a: nat)
    requires Copied(token, t, i) && IntegerAt(token, 0, a)
    ensures IntegerAt(t, i, i + a)
  {
    var first := if token[0] == MINUS then 1 else 0;
    assert t[i + 0] == token[0] && t[i + first] == token[first];
    if token[first] != ZERO {
      DigitsMove(token, t, i, first, a);
    }
  }

  lemma FractionMoves(token: Str, t: Str, i: nat, a: nat, b: nat)
    requires Copied(token, t, i) && FractionAt(token, a, b)
    ensures FractionAt(t, i + a, i + b)
  {
    if a != b {
      assert t[i + a] == token[a];
      DigitsMove(token, t, i, a + 1, b);
    }
  }

  lemma ExponentMoves(token: Str, t: Str, i: nat, a: nat, b: nat)
    requires Copied(token, t, i) && ExponentAt(token, a, b)
    ensures ExponentAt(t, i + a, i + b)
  {
    if a != b {
      assert t[i + a] == token[a] && t[i + (a + 1)] == token[a + 1];
      DigitsMove(token, t, i, if token[a + 1] == PLUS || token[a + 1] == MINUS then a + 2 else a + 1, b);
    }
  }

  // ---------------------------------------------------------------- values

  /** Every number in `v` is a number token. */
  ghost predicate Numeric(v: Json) {
    match v
    case Number(token) => NumberAt(token, 0, |token|)
    case Array(items) => forall i :: 0 <= i < |items| ==> Numeric(items[i])
    case Object(members) => forall k :: k in members ==> Numeric(members[k])
    case _ => true
  }

  lemma NumberNotEmpty(token: Str)
    requires NumberAt(token, 0, |token|)
    ensures token != []
  {
    var a: nat, b: nat :| IntegerAt(token, 0, a) && FractionAt(token, a, b) && ExponentAt(token, b, |token|);
  }

  lemma PaddedHere(t: Str, i: nat, j: nat, v: Json)
    requires ValueAt(t, i, j, v)
    ensures PaddedAt(t, i, j, v)
  {
    assert Blank(t, i, i);
  }

  lemma {:induction false} ValueSpells(t: Str, i: nat, j: nat, v: Json)
    requires Numeric(v) && Reads(t, i, j, Canonical(v))
    ensures ValueAt(t, i, j, v)
    decreases v, 2, 0
  {
    match v
    case Null =>
    case Bool(_) =>
    case Number(token) =>
      NumberNotEmpty(token);
      NumberMoves(token, t, i, j);
    case String(s) => QuotedSpells(t, i, j, s);
    case Array(items) => ArraySpells(t, i, j, items);
    case Object(_) => ObjectSpells(t, i, j, v);
  }

  lemma {:induction false} ArraySpells(t: Str, i: nat, j: nat, items: seq<Json>)
    requires Numeric(Array(items)) && Reads(t, i, j, [OPEN_BRACKET] + CanonicalItems(items) + [CLOSE_BRACKET])
    ensures ValueAt(t, i, j, Array(items))
    decreases items, 1, 0
  {
    ReadsBetween(t, i, j, OPEN_BRACKET, CanonicalItems(items), CLOSE_BRACKET);
    if items != [] {
      ItemsSpell(t, i + 1, j - 1, items);
    }
    ArrayTogether(t, i, j, items);
  }

  lemma ObjectReads(t: Str, i: nat, j: nat, v: Json) returns (keys: seq<Str>, close: nat)
    requires v.Object? && Reads(t, i, j, Canonical(v))
    ensures i < close < |t| && j == close + 1 && t[i] == OPEN_BRACE && t[close] == CLOSE_BRACE
    ensures SortedKeys.Lists(keys, v.members.Keys) && (forall k :: k in keys ==> k in v.members)
    ensures Reads(t, i + 1, close, CanonicalMembers(v, keys))
  {
    keys, close := SortedKeys.Ordered(v.members.Keys), j - 1;
    ReadsBetween(t, i, j, OPEN_BRACE, CanonicalMembers(v, keys), CLOSE_BRACE);
    SortedKeys.OrderedLists(v.members.Keys);
  }

  lemma {:induction false} ObjectSpells(t: Str, i: nat, j: nat, v: Json)
    requires v.Object? && Numeric(v) && Reads(t, i, j, Canonical(v))
    ensures ValueAt(t, i, j, v)
    decreases v, 1, 0
  {
    var keys, close := ObjectReads(t, i, j, v);
    if keys == [] {
      EmptyObjectHere(t, i, close, v);
    } else {
      MembersSpell(t, i + 1, close, v, keys, v.members.Keys);
      ObjectTogether(t, i, close, v);
    }
  }

  lemma EmptyObjectHere(t: Str, i: nat, close: nat, v: Json)
    requires i < close < |t| && t[i] == OPEN_BRACE && t[close] == CLOSE_BRACE && v == Object(map[])
    requires Reads(t, i + 1, close, CanonicalMembers(v, []))
    ensures ValueAt(t, i, close + 1, v)
  {
    assert |t[i + 1..close]| == 0;
    assert Blank(t, i + 1, i + 1);
  }

  lemma ObjectTogether(t: Str, i: nat, close: nat, v: Json)
    requires i < close < |t| && t[i] == OPEN_BRACE && v.Object? && v.members != map[] && MembersAt(t, i + 1, close + 1, v.members, v.members.Keys)
    ensures ValueAt(t, i, close + 1, v)
  {
  }

  lemma ArrayTogether(t: Str, i: nat, j: nat, items: seq<Json>)
    requires i + 2 <= j <= |t| && t[i] == OPEN_BRACKET && t[j - 1] == CLOSE_BRACKET
    requires if items == [] then i + 2 == j else ItemsAt(t, i + 1, j, items)
    ensures ValueAt(t, i, j, Array(items))
  {
    assert Blank(t, i + 1, i + 1);
  }

  lemma FirstItemReads(t: Str, i: nat, j: nat, items: seq<Json>) returns (k: nat)
    requires |items| > 1 && Reads(t, i, j, CanonicalItems(items))
    ensures k < j && Reads(t, i, k, Canonical(items[0])) && t[k] == COMMA && Reads(t, k + 1, j, CanonicalItems(items[1..]))
  {
    k := ReadsAround(t, i, j, Canonical(items[0]), COMMA, CanonicalItems(items[1..]));
  }

  lemma {:induction false} ItemsSpell(t: Str, i: nat, j: nat, items: seq<Json>)
    requires items != [] && (forall k :: 0 <= k < |items| ==> Numeric(items[k]))
    requires Reads(t, i, j, CanonicalItems(items)) && j < |t| && t[j] == CLOSE_BRACKET
    ensures ItemsAt(t, i, j + 1, items)
    decreases items, 0, 0
  {
    var k := j;
    if |items| > 1 {
      k := FirstItemReads(t, i, j, items);
      ItemsSpell(t, k + 1, j, items[1..]);
    }
    ValueSpells(t, i, k, items[0]);
    ItemsJoin(t, i, k, j + 1, items);
  }

  lemma ItemsJoin(t: Str, i: nat, b: nat, j: nat, items: seq<Json>)
    requires items != [] && ValueAt(t, i, b, items[0]) && b < j <= |t|
    requires if |items| == 1 then t[b] == CLOSE_BRACKET && j == b + 1 else t[b] == COMMA && ItemsAt(t, b + 1, j, items[1..])
    ensures ItemsAt(t, i, j, items)
  {
    PaddedHere(t, i, b, items[0]);
    assert Blank(t, b, b);
    assert items == [items[0]] + items[1..];
    ItemsCons(t, i, b, b, j, items[0], items[1..]);
  }

  lemma {:induction false} MemberSpells(t: Str, i: nat, j: nat, v: Json, key: Str)
    requires v.Object? && key in v.members && Numeric(v) && Reads(t, i, j, CanonicalMember(v, key))
    ensures MemberAt(t, i, j, key, v.members[key]) && i < j
    decreases v, 0, 0
  {
    var item := v.members[key];
    var b := KeyReads(t, i, j, v, key);
    ValueSpells(t, b + 1, j, item);
    MemberTogether(t, i, b, j, key, item);
  }

  lemma KeyReads(t: Str, i: nat, j: nat, v: Json, key: Str) returns (b: nat)
    requires v.Object? && key in v.members && Reads(t, i, j, CanonicalMember(v, key))
    ensures StringAt(t, i, b, key) && b < j && t[b] == COLON && Reads(t, b + 1, j, Canonical(v.members[key]))
  {
    b := ReadsAround(t, i, j, Quoted(key), COLON, Canonical(v.members[key]));
    QuotedSpells(t, i, b, key);
  }

  lemma MemberTogether(t: Str, i: nat, b: nat, j: nat, key: Str, item: Json)
    requires StringAt(t, i, b, key) && b < |t| && t[b] == COLON && ValueAt(t, b + 1, j, item)
    ensures MemberAt(t, i, j, key, item) && i < j
  {
    PaddedHere(t, b + 1, j, item);
    assert Blank(t, i, i) && Blank(t, b, b);
    MemberFromParts(t, i, i, b, b, j, key, item);
  }

  lemma FirstMemberReads(t: Str, i: nat, j: nat, v: Json, keys: seq<Str>) returns (k: nat)
    requires v.Object? && |keys| > 1 && (forall key :: key in keys ==> key in v.members) && Reads(t, i, j, CanonicalMembers(v, keys))
    ensures k < j && Reads(t, i, k, CanonicalMember(v, keys[0])) && t[k] == COMMA && Reads(t, k + 1, j, CanonicalMembers(v, keys[1..]))
  {
    k := ReadsAround(t, i, j, CanonicalMember(v, keys[0]), COMMA, CanonicalMembers(v, keys[1..]));
  }

  lemma {:induction false} MembersSpell(t: Str, i: nat, j: nat, v: Json, keys: seq<Str>, domain: set<Str>)
    requires v.Object? && Numeric(v) && keys != [] && domain <= v.members.Keys && SortedKeys.Lists(keys, domain)
    requires (forall k :: k in keys ==> k in v.members)
    requires Reads(t, i, j, CanonicalMembers(v, keys)) && j < |t| && t[j] == CLOSE_BRACE
    ensures MembersAt(t, i, j + 1, v.members, domain)
    decreases v, 0, 2 * |keys| + 1
  {
    SortedKeys.ListsOne(keys, domain);
    if |keys| == 1 {
      MemberSpells(t, i, j, v, keys[0]);
      MembersJoin(t, i, j, j + 1, v, domain, keys[0]);
    } else {
      MoreMembersSpell(t, i, j, v, keys, domain);
    }
  }

  lemma {:induction false} MoreMembersSpell(t: Str, i: nat, j: nat, v: Json, keys: seq<Str>, domain: set<Str>)
    requires v.Object? && Numeric(v) && |keys| > 1 && domain <= v.members.Keys && SortedKeys.Lists(keys, domain) && domain != {keys[0]}
    requires (forall k :: k in keys ==> k in v.members)
    requires Reads(t, i, j, CanonicalMembers(v, keys)) && j < |t| && t[j] == CLOSE_BRACE
    ensures MembersAt(t, i, j + 1, v.members, domain)
    decreases v, 0, 2 * |keys|
  {
    var key := keys[0];
    var k := FirstMemberReads(t, i, j, v, keys);
    MembersSpell(t, k + 1, j, v, keys[1..], domain - {key});
    MemberSpells(t, i, k, v, key);
    MembersJoin(t, i, k, j + 1, v, domain, key);
  }

  lemma MembersJoin(t: Str, i: nat, b: nat, j: nat, v: Json, keys: set<Str>, key: Str)
    requires v.Object? && key in keys && keys <= v.members.Keys && i < b < j <= |t| && MemberAt(t, i, b, key, v.members[key])
    requires if keys == {key} then t[b] == CLOSE_BRACE && j == b + 1 else t[b] == COMMA && MembersAt(t, b + 1, j, v.members, keys - {key})
    ensures MembersAt(t, i, j, v.members, keys)
  {
    assert Blank(t, b, b);
    MembersCons(t, i, b, b, j, v, keys, key);
  }

  // ---------------------------------------------------------------- main results

  /** What `canonicalJson` prints is a JSON text of the value. */
  lemma CanonicalSpells(v: Json)
    requires Numeric(v)
    ensures Document(Canonical(v), v)
  {
    var t := Canonical(v);
    assert t[0..|t|] == t;
    ValueSpells(t, 0, |t|, v);
    PaddedHere(t, 0, |t|, v);
    assert Blank(t, |t|, |t|);
  }

  /** Parsing what was printed gives back the value, and nothing else, exactly when the value is within the limits. */
  lemma ParseInvertsPrint(limits: Limits, v: Json, w: Json)
    requires Numeric(v)
    ensures StrictJson.Accepts(limits, Canonical(v), w) <==> w == v && Fits(limits, v, 1) && Nodes(v) <= limits.maxNodes
  {
    CanonicalSpells(v);
    if StrictJson.Accepts(limits, Canonical(v), w) {
      DocumentUnique(Canonical(v), v, w);
    }
  }

  /** Values print alike only when they are equal. */
  lemma CanonicalInjective(v: Json, w: Json)
    requires Numeric(v) && Numeric(w)
    ensures Canonical(v) == Canonical(w) <==> v == w
  {
    CanonicalSpells(v);
    CanonicalSpells(w);
    if Canonical(v) == Canonical(w) {
      DocumentUnique(Canonical(v), v, w);
    }
  }
}
