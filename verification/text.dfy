/** Strings as the source's runtime has them: sequences of UTF-16 code units, compared unit by unit. */
module Text {

  type Unit = u: int | 0 <= u < 0x10000
  type Str = seq<Unit>

  const AT: Unit := 0x40

  /** The code units of an ASCII literal. */
  function Lit(s: string): (r: Str)
    requires forall i :: 0 <= i < |s| ==> s[i] as int < 128
    ensures |r| == |s|
    ensures forall i :: 0 <= i < |s| ==> r[i] == s[i] as int
  {
    seq(|s|, i requires 0 <= i < |s| => s[i] as int)
  }

  /** `a < b` on strings. */
  predicate Less(a: Str, b: Str) {
    if |b| == 0 then false
    else if |a| == 0 then true
    else if a[0] != b[0] then a[0] < b[0]
    else Less(a[1..], b[1..])
  }

  /** The three-way comparator every sort in the source uses. */
  function Cmp(a: Str, b: Str): int {
    if Less(a, b) then -1 else if Less(b, a) then 1 else 0
  }

  lemma {:induction false} LessAsymmetric(a: Str, b: Str)
    ensures !(Less(a, b) && Less(b, a))
  {
    if |a| > 0 && |b| > 0 && a[0] == b[0] {
      LessAsymmetric(a[1..], b[1..]);
    }
  }

  lemma {:induction false} LessTotal(a: Str, b: Str)
    ensures Less(a, b) || a == b || Less(b, a)
  {
    if |a| > 0 && |b| > 0 && a[0] == b[0] {
      LessTotal(a[1..], b[1..]);
      assert a == [a[0]] + a[1..] && b == [b[0]] + b[1..];
    }
  }

  lemma {:induction false} LessTransitive(a: Str, b: Str, c: Str)
    requires Less(a, b) && Less(b, c)
    ensures Less(a, c)
  {
    if |a| > 0 && a[0] == b[0] && b[0] == c[0] {
      LessTransitive(a[1..], b[1..], c[1..]);
    }
  }

  /** `Cmp` is a strict total order on strings: its sign flips, zero means equal, and it is transitive. */
  lemma CmpOrder(a: Str, b: Str)
    ensures Cmp(a, b) == -Cmp(b, a)
    ensures Cmp(a, b) == 0 <==> a == b
  {
    LessAsymmetric(a, b);
    LessTotal(a, b);
    LessAsymmetric(a, a);
  }

  lemma CmpTransitive(a: Str, b: Str, c: Str)
    requires Cmp(a, b) <= 0 && Cmp(b, c) <= 0
    ensures Cmp(a, c) <= 0
    ensures Cmp(a, b) < 0 || Cmp(b, c) < 0 ==> Cmp(a, c) < 0
  {
    CmpOrder(a, b);
    CmpOrder(b, c);
    CmpOrder(a, c);
    if a != b && b != c {
      LessTransitive(a, b, c);
    }
  }

  /** The first difference decides, and a proper prefix comes first. */
  predicate Differs(a: Str, b: Str, n: nat) {
    n <= |a| && n < |b| && a[..n] == b[..n] && (n < |a| ==> a[n] < b[n])
  }

  lemma {:induction false} FirstDifference(a: Str, b: Str) returns (n: nat)
    requires Less(a, b)
    ensures Differs(a, b, n)
  {
    if a == [] || a[0] != b[0] {
      n := 0;
    } else {
      n := FirstDifference(a[1..], b[1..]);
      assert a[..n + 1] == [a[0]] + a[1..][..n] && b[..n + 1] == [b[0]] + b[1..][..n];
      n := n + 1;
    }
  }

  lemma {:induction false} LessByDifference(a: Str, b: Str, n: nat)
    requires Differs(a, b, n)
    ensures Less(a, b)
  {
    if n > 0 {
      assert a[..n][0] == a[0] && b[..n][0] == b[0];
      assert a[1..][..n - 1] == a[..n][1..] && b[1..][..n - 1] == b[..n][1..];
      LessByDifference(a[1..], b[1..], n - 1);
    }
  }

  /** Strings compare unit by unit: one is less than another exactly when the first difference says so. */
  lemma LessExactly(a: Str, b: Str)
    ensures Less(a, b) <==> exists n: nat :: Differs(a, b, n)
  {
    if Less(a, b) {
      var n := FirstDifference(a, b);
    }
    if n: nat :| Differs(a, b, n) {
      LessByDifference(a, b, n);
    }
  }

  /** The sign of `Cmp` is the order. */
  lemma CmpExactly(a: Str, b: Str)
    ensures Cmp(a, b) < 0 <==> Less(a, b)
    ensures Cmp(a, b) == 0 <==> a == b
  {
    CmpOrder(a, b);
  }

  /** The text is this ASCII word. */
  predicate Spelled(s: Str, word: string) { |s| == |word| && forall i :: 0 <= i < |word| ==> s[i] == word[i] as int }

  predicate Between(c: Unit, first: char, last: char) { first as int <= c <= last as int }
}
