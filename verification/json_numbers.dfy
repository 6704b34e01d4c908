/**
 * Numbers in memory. The source keeps a double for each number; here it is kept as the text that `JSON.stringify` prints
 * for that double, so equal doubles are equal texts.
 */
module JsonNumbers {
  import opened Text
  import opened JsonGrammar
  import JsonPrinter
  import StrictJson

  /** `print(token)` is the text of the double that a token denotes; that text is a number token and denotes the same double. */
  ghost predicate Prints(shown: Str -> Str) {
    forall t: Str :: NumberAt(t, 0, |t|) ==> NumberAt(shown(t), 0, |shown(t)|) && shown(shown(t)) == shown(t)
  }

  /** The value in memory once a text that spells `v` is read. */
  function Stored(shown: Str -> Str, v: Json): Json {
    match v
    case Number(token) => Number(shown(token))
    case Array(items) => Array(seq(|items|, i requires 0 <= i < |items| => Stored(shown, items[i])))
    case Object(members) => Object(map k | k in members :: Stored(shown, members[k]))
    case _ => v
  }

  /** The same value, with numbers compared as doubles and objects as maps. */
  ghost predicate SameValue(shown: Str -> Str, v: Json, w: Json) {
    match v
    case Number(token) => w.Number? && shown(token) == shown(w.token)
    case Array(items) => w.Array? && |w.items| == |items| && forall i :: 0 <= i < |items| ==> SameValue(shown, items[i], w.items[i])
    case Object(members) => w.Object? && w.members.Keys == members.Keys && forall k :: k in members ==> SameValue(shown, members[k], w.members[k])
    case _ => v == w
  }

  lemma {:induction false} StoredExactly(shown: Str -> Str, v: Json, w: Json)
    ensures Stored(shown, v) == Stored(shown, w) <==> SameValue(shown, v, w)
    decreases v
  {
    match v
    case Array(items) =>
      if w.Array? && |w.items| == |items| {
        forall i | 0 <= i < |items| ensures Stored(shown, items[i]) == Stored(shown, w.items[i]) <==> SameValue(shown, items[i], w.items[i]) {
          StoredExactly(shown, items[i], w.items[i]);
        }
        ItemsExactly(shown, v, w);
      } else if w.Array? {
        assert |Stored(shown, v).items| == |items| && |Stored(shown, w).items| == |w.items|;
      }
    case Object(members) =>
      if w.Object? && w.members.Keys == members.Keys {
        forall k | k in members ensures Stored(shown, members[k]) == Stored(shown, w.members[k]) <==> SameValue(shown, members[k], w.members[k]) {
          StoredExactly(shown, members[k], w.members[k]);
        }
        MembersExactly(shown, v, w);
      } else if w.Object? {
        assert Stored(shown, v).members.Keys == members.Keys && Stored(shown, w).members.Keys == w.members.Keys;
      }
    case _ =>
  }

  lemma ItemsExactly(shown: Str -> Str, v: Json, w: Json)
    requires v.Array? && w.Array? && |v.items| == |w.items|
    ensures Stored(shown, v) == Stored(shown, w) <==> forall i :: 0 <= i < |v.items| ==> Stored(shown, v.items[i]) == Stored(shown, w.items[i])
  {
    var a, b := Stored(shown, v).items, Stored(shown, w).items;
    assert forall i :: 0 <= i < |v.items| ==> a[i] == Stored(shown, v.items[i]) && b[i] == Stored(shown, w.items[i]);
    assert a == b <==> forall i :: 0 <= i < |v.items| ==> a[i] == b[i];
  }

  lemma MembersExactly(shown: Str -> Str, v: Json, w: Json)
    requires v.Object? && w.Object? && v.members.Keys == w.members.Keys
    ensures Stored(shown, v) == Stored(shown, w) <==> forall k :: k in v.members ==> Stored(shown, v.members[k]) == Stored(shown, w.members[k])
  {
    var a, b := Stored(shown, v).members, Stored(shown, w).members;
    assert forall k :: k in v.members ==> a[k] == Stored(shown, v.members[k]) && b[k] == Stored(shown, w.members[k]);
    assert a == b <==> forall k :: k in a.Keys ==> a[k] == b[k];
  }

  /** Storing again changes nothing, and what is stored has number tokens only. */
  lemma {:induction false} StoredStays(shown: Str -> Str, v: Json)
    requires Prints(shown) && JsonPrinter.Numeric(v)
    ensures JsonPrinter.Numeric(Stored(shown, v)) && SameValue(shown, Stored(shown, v), v)
    decreases v
  {
    match v
    case Array(items) =>
      forall i | 0 <= i < |items| ensures JsonPrinter.Numeric(Stored(shown, items[i])) && SameValue(shown, Stored(shown, items[i]), items[i]) {
        StoredStays(shown, items[i]);
      }
    case Object(members) =>
      forall k | k in members ensures JsonPrinter.Numeric(Stored(shown, members[k])) && SameValue(shown, Stored(shown, members[k]), members[k]) {
        StoredStays(shown, members[k]);
      }
    case _ =>
  }

  /** Values in memory print alike exactly when they are the same value: `1` and `1.0` do, and so do objects in any order. */
  lemma PrintsAlikeExactly(shown: Str -> Str, v: Json, w: Json)
    requires Prints(shown) && JsonPrinter.Numeric(v) && JsonPrinter.Numeric(w)
    ensures JsonPrinter.Canonical(Stored(shown, v)) == JsonPrinter.Canonical(Stored(shown, w)) <==> SameValue(shown, v, w)
  {
    StoredStays(shown, v);
    StoredStays(shown, w);
    JsonPrinter.CanonicalInjective(Stored(shown, v), Stored(shown, w));
    StoredExactly(shown, v, w);
  }

  /**
   * Reading what was printed of a value in memory gives that value back, exactly when it is within the limits: one value is
   * read, and it is stored as what was printed.
   */
  lemma ReadingInvertsPrinting(shown: Str -> Str, limits: Limits, v: Json, w: Json)
    requires Prints(shown) && JsonPrinter.Numeric(v)
    ensures StrictJson.Accepts(limits, JsonPrinter.Canonical(Stored(shown, v)), w) <==>
              w == Stored(shown, v) && Fits(limits, Stored(shown, v), 1) && Nodes(Stored(shown, v)) <= limits.maxNodes
    ensures StrictJson.Accepts(limits, JsonPrinter.Canonical(Stored(shown, v)), w) ==> Stored(shown, w) == Stored(shown, v)
  {
    StoredStays(shown, v);
    JsonPrinter.ParseInvertsPrint(limits, Stored(shown, v), w);
    StoredExactly(shown, Stored(shown, v), v);
  }
}
