/** The string and number scanners read exactly the tokens of the grammar. */
module JsonTokens {
  import opened Text
  import opened JsonGrammar
  import opened JsonScanner

  // ---------------------------------------------------------------- string bodies

  lemma {:induction false} BodyAppend(t: Str, i: nat, k: nat, j: nat, a: Str, b: Str)
    requires i <= k <= j <= |t| && BodyAt(t, i, k, a) && BodyAt(t, k, j, b)
    ensures BodyAt(t, i, j, a + b)
    decreases k - i
  {
    if i < k {
      assert (a + b)[1..] == a[1..] + b;
      var next := if IsPlain(t[i]) then i + 1 else if t[i + 1] == 0x75 then i + 6 else i + 2;
      BodyAppend(t, next, k, j, a[1..], b);
    } else {
      assert a + b == b;
    }
  }

  lemma {:induction false} PlainBody(t: Str, i: nat, j: nat)
    requires i <= j <= |t| && forall k :: i <= k < j ==> IsPlain(t[k])
    ensures BodyAt(t, i, j, t[i..j])
    decreases j - i
  {
    if i < j {
      PlainBody(t, i + 1, j);
      assert t[i..j][1..] == t[i + 1..j];
    }
  }

  /** A body that starts with a plain run starts by spelling that run. */
  lemma {:induction false} BodyAfterRun(t: Str, i: nat, k: nat, j: nat, s: Str)
    requires i <= k <= j <= |t| && BodyAt(t, i, j, s) && forall n :: i <= n < k ==> IsPlain(t[n])
    ensures k - i <= |s| && s[..k - i] == t[i..k] && BodyAt(t, k, j, s[k - i..])
    decreases k - i
  {
    if i < k {
      BodyAfterRun(t, i + 1, k, j, s[1..]);
      assert s == [s[0]] + s[1..];
      assert t[i..k] == [t[i]] + t[i + 1..k];
      assert s[1..][k - i - 1..] == s[k - i..];
    } else {
      assert s[0..] == s;
    }
  }

  lemma EscapeSound(t: Str, pos: nat)
    requires pos < |t| && t[pos] == BACKSLASH && ScanEscape(t, pos).Escaped?
    ensures BodyAt(t, pos, ScanEscape(t, pos).pos, [ScanEscape(t, pos).unit])
  {
  }

  lemma BodyJoin(t: Str, pos: nat, end: nat, next: nat, j: nat, u: Unit, rest: Str)
    requires pos <= end < next <= j <= |t|
    requires (forall k :: pos <= k < end ==> IsPlain(t[k])) && BodyAt(t, end, next, [u]) && BodyAt(t, next, j, rest)
    ensures BodyAt(t, pos, j, t[pos..end] + [u] + rest)
  {
    PlainBody(t, pos, end);
    BodyAppend(t, pos, end, next, t[pos..end], [u]);
    BodyAppend(t, pos, next, j, t[pos..end] + [u], rest);
  }

  /** One step of the scanner when a string goes on after an escape. */
  lemma ScanOverEscape(limits: Limits, t: Str, pos: nat, out: Str)
    requires pos <= |t| && ScanString(limits, t, pos, out).Got?
    requires t[RunEnd(t, pos)] != QUOTE
    ensures var end := RunEnd(t, pos);
            var escape := ScanEscape(t, end);
            t[end] == BACKSLASH && escape.Escaped? && |out| + end - pos + 1 <= limits.maxStringLength &&
            ScanString(limits, t, pos, out) == ScanString(limits, t, escape.pos, out + t[pos..end] + [escape.unit])
  {
  }

  lemma {:induction false} StringScanSound(limits: Limits, t: Str, pos: nat, out: Str) returns (body: Str)
    requires pos <= |t| && |out| <= limits.maxStringLength
    requires ScanString(limits, t, pos, out).Got?
    ensures var r := ScanString(limits, t, pos, out);
            r.text == out + body && StringFits(limits, r.text) && t[r.pos - 1] == QUOTE && BodyAt(t, pos, r.pos - 1, body)
    decreases |t| - pos
  {
    var end := RunEnd(t, pos);
    if t[end] == QUOTE {
      body := t[pos..end];
      PlainBody(t, pos, end);
    } else {
      ScanOverEscape(limits, t, pos, out);
      var escape := ScanEscape(t, end);
      var rest := StringScanSound(limits, t, escape.pos, out + t[pos..end] + [escape.unit]);
      body := t[pos..end] + [escape.unit] + rest;
      Regroup(out, t[pos..end], [escape.unit], rest);
      BodyGoesOn(t, pos, end, ScanString(limits, t, pos, out).pos - 1, rest);
    }
  }

  lemma BodyGoesOn(t: Str, pos: nat, end: nat, j: nat, rest: Str)
    requires pos <= end < |t| && t[end] == BACKSLASH && ScanEscape(t, end).Escaped?
    requires (forall k :: pos <= k < end ==> IsPlain(t[k])) && BodyAt(t, ScanEscape(t, end).pos, j, rest)
    ensures BodyAt(t, pos, j, t[pos..end] + [ScanEscape(t, end).unit] + rest)
  {
    var escape := ScanEscape(t, end);
    EscapeSound(t, end);
    BodyInRange(t, escape.pos, j, rest);
    BodyJoin(t, pos, end, escape.pos, j, escape.unit, rest);
  }

  lemma Regroup(a: Str, b: Str, c: Str, d: Str)
    ensures a + b + c + d == a + (b + c + d)
  {
  }

  lemma BodyInRange(t: Str, i: nat, j: nat, s: Str)
    requires BodyAt(t, i, j, s)
    ensures i <= j <= |t|
  {
  }

  /** An escape inside a body is read as the unit it spells. */
  lemma EscapeComplete(t: Str, pos: nat, j: nat, body: Str)
    requires pos < j < |t| && !IsPlain(t[pos]) && BodyAt(t, pos, j, body)
    ensures t[pos] == BACKSLASH && body != [] && ScanEscape(t, pos).Escaped? && ScanEscape(t, pos).unit == body[0]
    ensures ScanEscape(t, pos).pos <= j && BodyAt(t, ScanEscape(t, pos).pos, j, body[1..])
  {
  }

  lemma {:induction false} StringScanComplete(limits: Limits, t: Str, pos: nat, j: nat, out: Str, body: Str)
    requires pos <= j < |t| && t[j] == QUOTE && BodyAt(t, pos, j, body)
    requires StringFits(limits, out + body)
    ensures ScanString(limits, t, pos, out) == Got(out + body, j + 1)
    decreases j - pos, 1
  {
    var end := RunEnd(t, pos);
    RunStops(t, pos, j);
    BodyAfterRun(t, pos, end, j, body);
    if end == j {
      assert body == t[pos..end];
      ScanEnds(limits, t, pos, out, body);
    } else {
      ScanGoesOn(limits, t, pos, end, j, out, body);
    }
  }

  lemma {:induction false} ScanGoesOn(limits: Limits, t: Str, pos: nat, end: nat, j: nat, out: Str, body: Str)
    requires pos <= end < j < |t| && t[j] == QUOTE && end == RunEnd(t, pos)
    requires end - pos <= |body| && body[..end - pos] == t[pos..end] && BodyAt(t, end, j, body[end - pos..])
    requires StringFits(limits, out + body)
    ensures ScanString(limits, t, pos, out) == Got(out + body, j + 1)
    decreases j - pos, 0
  {
    var rest := body[end - pos..];
    EscapeComplete(t, end, j, rest);
    SplitBody(out, body, end - pos);
    ScanStep(limits, t, pos, out);
    StringScanComplete(limits, t, ScanEscape(t, end).pos, j, out + t[pos..end] + [rest[0]], rest[1..]);
  }

  lemma ScanEnds(limits: Limits, t: Str, pos: nat, out: Str, body: Str)
    requires pos <= |t| && RunEnd(t, pos) < |t| && t[RunEnd(t, pos)] == QUOTE
    requires body == t[pos..RunEnd(t, pos)] && StringFits(limits, out + body)
    ensures ScanString(limits, t, pos, out) == Got(out + body, RunEnd(t, pos) + 1)
  {
  }

  lemma SplitBody(out: Str, body: Str, n: nat)
    requires n < |body|
    ensures out + body[..n] + [body[n..][0]] + body[n..][1..] == out + body
  {
  }

  lemma ScanStep(limits: Limits, t: Str, pos: nat, out: Str)
    requires pos <= |t| && RunEnd(t, pos) < |t| && t[RunEnd(t, pos)] == BACKSLASH && ScanEscape(t, RunEnd(t, pos)).Escaped?
    requires |out| + RunEnd(t, pos) - pos + 1 <= limits.maxStringLength
    ensures var end := RunEnd(t, pos);
            var escape := ScanEscape(t, end);
            ScanString(limits, t, pos, out) == ScanString(limits, t, escape.pos, out + t[pos..end] + [escape.unit])
  {
  }

  lemma RunStops(t: Str, pos: nat, j: nat)
    requires pos <= j < |t| && t[j] == QUOTE
    ensures RunEnd(t, pos) <= j
  {
  }

  // ---------------------------------------------------------------- numbers

  /** What may stand after a value. */
  predicate Follow(t: Str, j: nat) {
    j == |t| || (j < |t| && (IsWs(t[j]) || t[j] == COMMA || t[j] == CLOSE_BRACKET || t[j] == CLOSE_BRACE))
  }

  lemma {:induction false} DigitsSound(limits: Limits, t: Str, pos: nat, start: nat)
    requires start <= pos <= |t| && ScanDigits(limits, t, pos, start).Upto?
    ensures forall k :: pos <= k < ScanDigits(limits, t, pos, start).pos ==> IsDigit(t[k])
    decreases |t| - pos
  {
    if DigitHere(t, pos) {
      DigitsSound(limits, t, pos + 1, start);
    }
  }

  lemma {:induction false} DigitsComplete(limits: Limits, t: Str, pos: nat, start: nat, j: nat)
    requires start <= pos <= j <= |t| && (forall k :: pos <= k < j ==> IsDigit(t[k])) && !DigitHere(t, j)
    requires j - start <= limits.maxStringLength
    ensures ScanDigits(limits, t, pos, start) == Upto(j)
    decreases |t| - pos
  {
    if pos < j {
      DigitsComplete(limits, t, pos + 1, start, j);
    }
  }

  lemma IntegerSound(limits: Limits, t: Str, start: nat)
    requires start <= |t| && ScanInteger(limits, t, start).Upto?
    ensures IntegerAt(t, start, ScanInteger(limits, t, start).pos)
  {
    var first := if start < |t| && t[start] == MINUS then start + 1 else start;
    if !(first < |t| && t[first] == ZERO) {
      DigitsSound(limits, t, first, start);
    }
  }

  lemma FractionSound(limits: Limits, t: Str, pos: nat, start: nat)
    requires start <= pos <= |t| && ScanFraction(limits, t, pos, start).Upto?
    ensures FractionAt(t, pos, ScanFraction(limits, t, pos, start).pos)
  {
    if pos < |t| && t[pos] == DOT {
      DigitsSound(limits, t, pos + 1, start);
    }
  }

  lemma ExponentSound(limits: Limits, t: Str, pos: nat, start: nat)
    requires start <= pos <= |t| && ScanExponent(limits, t, pos, start).Upto?
    ensures ExponentAt(t, pos, ScanExponent(limits, t, pos, start).pos)
  {
    if pos < |t| && IsExp(t[pos]) {
      var digits := if pos + 1 < |t| && (t[pos + 1] == PLUS || t[pos + 1] == MINUS) then pos + 2 else pos + 1;
      DigitsSound(limits, t, digits, start);
    }
  }

  lemma NumberScanSound(limits: Limits, t: Str, start: nat)
    requires start <= |t| && ScanNumber(limits, t, start).Got?
    ensures var r := ScanNumber(limits, t, start);
            NumberAt(t, start, r.pos) && r.text == t[start..r.pos] && |r.text| <= limits.maxStringLength && limits.finite(r.text)
  {
    IntegerSound(limits, t, start);
    var a := ScanInteger(limits, t, start).pos;
    FractionSound(limits, t, a, start);
    var b := ScanFraction(limits, t, a, start).pos;
    ExponentSound(limits, t, b, start);
  }

  lemma IntegerComplete(limits: Limits, t: Str, i: nat, a: nat)
    requires IntegerAt(t, i, a) && !DigitHere(t, a) && a - i <= limits.maxStringLength
    ensures ScanInteger(limits, t, i) == Upto(a)
  {
    var first := if i < |t| && t[i] == MINUS then i + 1 else i;
    if t[first] != ZERO {
      DigitsComplete(limits, t, first, i, a);
    }
  }

  lemma FractionComplete(limits: Limits, t: Str, a: nat, b: nat, start: nat)
    requires start <= a <= |t| && FractionAt(t, a, b) && !DigitHere(t, b) && (a == b ==> a == |t| || t[a] != DOT)
    requires b - start <= limits.maxStringLength
    ensures ScanFraction(limits, t, a, start) == Upto(b)
  {
    if a < b {
      DigitsComplete(limits, t, a + 1, start, b);
    }
  }

  lemma ExponentComplete(limits: Limits, t: Str, b: nat, j: nat, start: nat)
    requires start <= b <= |t| && ExponentAt(t, b, j) && Follow(t, j) && j - start <= limits.maxStringLength
    ensures ScanExponent(limits, t, b, start) == Upto(j)
  {
    if b < j {
      DigitsComplete(limits, t, if t[b + 1] == PLUS || t[b + 1] == MINUS then b + 2 else b + 1, start, j);
    }
  }

  lemma NumberScanComplete(limits: Limits, t: Str, i: nat, j: nat)
    requires NumberAt(t, i, j) && Follow(t, j)
    requires j - i <= limits.maxStringLength && limits.finite(t[i..j])
    ensures ScanNumber(limits, t, i) == Got(t[i..j], j)
  {
    var a: nat, b: nat :| IntegerAt(t, i, a) && FractionAt(t, a, b) && ExponentAt(t, b, j);
    IntegerComplete(limits, t, i, a);
    FractionComplete(limits, t, a, b, i);
    ExponentComplete(limits, t, b, j, i);
  }

  lemma NumberStarts(t: Str, i: nat, j: nat)
    requires NumberAt(t, i, j)
    ensures i < j <= |t| && (t[i] == MINUS || IsDigit(t[i]))
  {
  }
}
