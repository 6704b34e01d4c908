/** JSON values and the grammar of sections 2 to 7 of RFC 8259, stated declaratively over positions of a text. */
module JsonGrammar {
  import opened Text

  /** A number is its token; in a value in memory it is the token that `JSON.stringify` prints for the double. */
  datatype Json =
    | Null
    | Bool(b: bool)
    | Number(token: Str)
    | String(s: Str)
    | Array(items: seq<Json>)
    | Object(members: map<Str, Json>)

  /** `finite` says whether a number token converts to a finite double. */
  datatype Limits = Limits(maxDepth: nat, maxNodes: nat, maxStringLength: nat, finite: Str -> bool)

  const QUOTE: Unit := 0x22
  const BACKSLASH: Unit := 0x5c
  const COMMA: Unit := 0x2c
  const COLON: Unit := 0x3a
  const OPEN_BRACKET: Unit := 0x5b
  const CLOSE_BRACKET: Unit := 0x5d
  const OPEN_BRACE: Unit := 0x7b
  const CLOSE_BRACE: Unit := 0x7d
  const MINUS: Unit := 0x2d
  const PLUS: Unit := 0x2b
  const DOT: Unit := 0x2e
  const ZERO: Unit := 0x30
  const TRUE: Str := [0x74, 0x72, 0x75, 0x65]
  const FALSE: Str := [0x66, 0x61, 0x6c, 0x73, 0x65]
  const NULL: Str := [0x6e, 0x75, 0x6c, 0x6c]

  // ---------------------------------------------------------------- tokens

  predicate IsWs(c: Unit) { c == 0x20 || c == 0x09 || c == 0x0a || c == 0x0d }

  predicate IsDigit(c: Unit) { 0x30 <= c <= 0x39 }

  predicate IsExp(c: Unit) { c == 0x65 || c == 0x45 }

  predicate Blank(t: Str, i: nat, j: nat) {
    i <= j <= |t| && forall k :: i <= k < j ==> IsWs(t[k])
  }

  predicate LiteralAt(t: Str, i: nat, j: nat, literal: Str) {
    j == i + |literal| && j <= |t| && t[i..j] == literal
  }

  predicate DigitsAt(t: Str, i: nat, j: nat) {
    i < j <= |t| && forall k :: i <= k < j ==> IsDigit(t[k])
  }

  predicate IntegerAt(t: Str, i: nat, j: nat) {
    var first := if i < |t| && t[i] == MINUS then i + 1 else i;
    first < |t| && if t[first] == ZERO then j == first + 1 else DigitsAt(t, first, j)
  }

  predicate FractionAt(t: Str, i: nat, j: nat) {
    j == i || (i < |t| && t[i] == DOT && DigitsAt(t, i + 1, j))
  }

  predicate ExponentAt(t: Str, i: nat, j: nat) {
    j == i || (i + 1 < |t| && IsExp(t[i]) && DigitsAt(t, if t[i + 1] == PLUS || t[i + 1] == MINUS then i + 2 else i + 1, j))
  }

  ghost predicate NumberAt(t: Str, i: nat, j: nat) {
    exists a: nat, b: nat :: IntegerAt(t, i, a) && FractionAt(t, a, b) && ExponentAt(t, b, j)
  }

  /** The unit a two-character escape stands for. */
  function SimpleEscape(e: Unit): int {
    if e == QUOTE || e == BACKSLASH || e == 0x2f then e
    else if e == 0x62 then 0x08
    else if e == 0x66 then 0x0c
    else if e == 0x6e then 0x0a
    else if e == 0x72 then 0x0d
    else if e == 0x74 then 0x09
    else -1
  }

  function HexDigit(c: Unit): int {
    if 0x30 <= c <= 0x39 then c - 0x30
    else if 0x61 <= c <= 0x66 then c - 0x61 + 10
    else if 0x41 <= c <= 0x46 then c - 0x41 + 10
    else -1
  }

  predicate HexAt(t: Str, i: nat) {
    i + 4 <= |t| && HexDigit(t[i]) >= 0 && HexDigit(t[i + 1]) >= 0 && HexDigit(t[i + 2]) >= 0 && HexDigit(t[i + 3]) >= 0
  }

  function HexValue(t: Str, i: nat): Unit
    requires HexAt(t, i)
  {
    HexDigit(t[i]) * 4096 + HexDigit(t[i + 1]) * 256 + HexDigit(t[i + 2]) * 16 + HexDigit(t[i + 3])
  }

  predicate IsPlain(c: Unit) { c != QUOTE && c != BACKSLASH && c >= 0x20 }

  /** The characters from `i` to `j`, between the quotes, spell the string `s`. */
  predicate BodyAt(t: Str, i: nat, j: nat, s: Str)
    decreases j - i
  {
    if i >= j || j > |t| then i == j && j <= |t| && s == []
    else if s == [] then false
    else if IsPlain(t[i]) then s[0] == t[i] && BodyAt(t, i + 1, j, s[1..])
    else if t[i] != BACKSLASH || i + 1 >= j then false
    else if t[i + 1] == 0x75 then i + 6 <= j && HexAt(t, i + 2) && s[0] == HexValue(t, i + 2) && BodyAt(t, i + 6, j, s[1..])
    else SimpleEscape(t[i + 1]) == s[0] && BodyAt(t, i + 2, j, s[1..])
  }

  predicate StringAt(t: Str, i: nat, j: nat, s: Str) {
    i + 2 <= j <= |t| && t[i] == QUOTE && t[j - 1] == QUOTE && BodyAt(t, i + 1, j - 1, s)
  }

  predicate IsHigh(u: Unit) { 0xd800 <= u <= 0xdbff }

  predicate IsLow(u: Unit) { 0xdc00 <= u <= 0xdfff }

  /** Every surrogate is half of a pair. */
  predicate Paired(s: Str) {
    if s == [] then true
    else if IsHigh(s[0]) then |s| > 1 && IsLow(s[1]) && Paired(s[2..])
    else !IsLow(s[0]) && Paired(s[1..])
  }

  // ---------------------------------------------------------------- values

  /** The text from `i` to `j` is the value `v`, with no blanks around it. */
  ghost predicate ValueAt(t: Str, i: nat, j: nat, v: Json)
    decreases if i <= j then j - i else 0, 1
  {
    && i < j <= |t|
    && match v
       case Null => LiteralAt(t, i, j, NULL)
       case Bool(b) => LiteralAt(t, i, j, if b then TRUE else FALSE)
       case Number(token) => NumberAt(t, i, j) && token == t[i..j]
       case String(s) => StringAt(t, i, j, s)
       case Array(items) =>
         && t[i] == OPEN_BRACKET
         && if items == [] then exists k: nat :: Blank(t, i + 1, k) && k < |t| && t[k] == CLOSE_BRACKET && j == k + 1
            else ItemsAt(t, i + 1, j, items)
       case Object(members) =>
         && t[i] == OPEN_BRACE
         && if members == map[] then exists k: nat :: Blank(t, i + 1, k) && k < |t| && t[k] == CLOSE_BRACE && j == k + 1
            else MembersAt(t, i + 1, j, members, members.Keys)
  }

  /** A value with blanks before it. */
  ghost predicate PaddedAt(t: Str, i: nat, j: nat, v: Json)
    decreases if i <= j then j - i else 0, 2
  {
    exists a: nat {:trigger ValueAt(t, a, j, v)} :: Blank(t, i, a) && i <= a < j && ValueAt(t, a, j, v)
  }

  /** The first item ends at `b`; at `c`, after blanks, a comma and more items follow, or the closing bracket. */
  ghost predicate ItemThen(t: Str, i: nat, b: nat, c: nat, j: nat, items: seq<Json>)
    requires items != []
    decreases if i <= j then j - i else 0, 3
  {
    && i < b && Blank(t, b, c) && c < j <= |t| && PaddedAt(t, i, b, items[0])
    && if |items| == 1 then t[c] == CLOSE_BRACKET && j == c + 1 else t[c] == COMMA && ItemsAt(t, c + 1, j, items[1..])
  }

  /** One or more values separated by commas, up to and including the closing bracket. */
  ghost predicate ItemsAt(t: Str, i: nat, j: nat, items: seq<Json>)
    decreases if i <= j then j - i else 0, 4
  {
    items != [] && exists b: nat, c: nat :: ItemThen(t, i, b, c, j, items)
  }

  /** `"key" : value`, the key between `a` and `b`, the colon at `c`. */
  ghost predicate MemberSplit(t: Str, i: nat, a: nat, b: nat, c: nat, j: nat, key: Str, v: Json)
    decreases if i <= j then j - i else 0, 3
  {
    Blank(t, i, a) && StringAt(t, a, b, key) && Blank(t, b, c) && i < c + 1 && c < j && c < |t| && t[c] == COLON && PaddedAt(t, c + 1, j, v)
  }

  ghost predicate MemberAt(t: Str, i: nat, j: nat, key: Str, v: Json)
    decreases if i <= j then j - i else 0, 4
  {
    exists a: nat, b: nat, c: nat :: MemberSplit(t, i, a, b, c, j, key, v)
  }

  /** The member for `key` ends at `b`; at `c`, after blanks, a comma and the other members follow, or the closing brace. */
  ghost predicate MemberThen(t: Str, i: nat, key: Str, b: nat, c: nat, j: nat, members: map<Str, Json>, keys: set<Str>)
    requires key in keys && keys <= members.Keys
    decreases if i <= j then j - i else 0, 5
  {
    && i < b && Blank(t, b, c) && c < j <= |t| && MemberAt(t, i, b, key, members[key])
    && if keys == {key} then t[c] == CLOSE_BRACE && j == c + 1 else t[c] == COMMA && MembersAt(t, c + 1, j, members, keys - {key})
  }

  /** One or more members whose keys are exactly `keys`, each once, up to and including the closing brace. */
  ghost predicate MembersAt(t: Str, i: nat, j: nat, members: map<Str, Json>, keys: set<Str>)
    decreases if i <= j then j - i else 0, 6
  {
    keys <= members.Keys && exists key, b: nat, c: nat :: key in keys && MemberThen(t, i, key, b, c, j, members, keys)
  }

  /** The whole text is one value, blanks allowed around it. */
  ghost predicate Document(t: Str, v: Json) {
    exists j: nat :: Blank(t, j, |t|) && PaddedAt(t, 0, j, v)
  }

  // ---------------------------------------------------------------- limits

  predicate StringFits(limits: Limits, s: Str) {
    Paired(s) && |s| <= limits.maxStringLength
  }

  /** Depth, string lengths, number tokens and surrogates of `v`, which stands at `depth`, are all in order. */
  ghost predicate Fits(limits: Limits, v: Json, depth: nat) {
    && depth <= limits.maxDepth
    && match v
       case Number(token) => |token| <= limits.maxStringLength && limits.finite(token)
       case String(s) => StringFits(limits, s)
       case Array(items) => forall i :: 0 <= i < |items| ==> Fits(limits, items[i], depth + 1)
       case Object(members) => forall k :: k in members ==> StringFits(limits, k) && Fits(limits, members[k], depth + 1)
       case _ => true
  }

  /** Every value and every key is a node. */
  ghost function Nodes(v: Json): nat
    decreases v, 1, 0
  {
    match v
    case Array(items) => 1 + ItemNodes(items)
    case Object(members) => 1 + MemberNodes(v, members.Keys)
    case _ => 1
  }

  ghost function ItemNodes(items: seq<Json>): nat
    decreases items, 0, 0
  {
    if items == [] then 0 else Nodes(items[0]) + ItemNodes(items[1..])
  }

  ghost function MemberNodes(v: Json, keys: set<Str>): nat
    requires v.Object? && keys <= v.members.Keys
    decreases v, 0, |keys|
  {
    if keys == {} then 0
    else
      var k :| k in keys;
      1 + Nodes(v.members[k]) + MemberNodes(v, keys - {k})
  }

  /** The count does not depend on the order in which members are taken. */
  lemma {:induction false} MemberNodesAny(v: Json, keys: set<Str>, key: Str)
    requires v.Object? && keys <= v.members.Keys && key in keys
    ensures MemberNodes(v, keys) == 1 + Nodes(v.members[key]) + MemberNodes(v, keys - {key})
    decreases |keys|
  {
    var k :| k in keys && MemberNodes(v, keys) == 1 + Nodes(v.members[k]) + MemberNodes(v, keys - {k});
    if k != key {
      MemberNodesAny(v, keys - {k}, key);
      MemberNodesAny(v, keys - {key}, k);
      assert keys - {k} - {key} == keys - {key} - {k};
    }
  }
}
