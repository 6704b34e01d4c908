/** Scanning of string and number tokens, as functions of the text and a position. */
module JsonScanner {
  import opened Text
  import opened JsonGrammar

  datatype ErrorKind = Syntax | DuplicateKey | Limit

  /** A string or number token was read up to `pos`, or reading stopped there. */
  datatype Scan = Got(text: Str, pos: nat) | Stop(kind: ErrorKind, pos: nat)

  /** Part of a number was read up to `pos`, or reading stopped there. */
  datatype Part = Upto(pos: nat) | Halt(kind: ErrorKind, pos: nat)

  datatype Escape = Escaped(unit: Unit, pos: nat) | BadEscape(pos: nat)

  function SkipWs(t: Str, pos: nat): (r: nat)
    requires pos <= |t|
    ensures Blank(t, pos, r) && (r < |t| ==> !IsWs(t[r]))
    decreases |t| - pos
  {
    if pos < |t| && IsWs(t[pos]) then SkipWs(t, pos + 1) else pos
  }

  // ---------------------------------------------------------------- strings

  function RunEnd(t: Str, pos: nat): (r: nat)
    requires pos <= |t|
    ensures pos <= r <= |t| && (forall k :: pos <= k < r ==> IsPlain(t[k])) && (r < |t| ==> !IsPlain(t[r]))
    decreases |t| - pos
  {
    if pos < |t| && IsPlain(t[pos]) then RunEnd(t, pos + 1) else pos
  }

  /** The escape whose backslash stands at `pos`. */
  function ScanEscape(t: Str, pos: nat): (r: Escape)
    requires pos < |t|
    ensures pos < r.pos <= |t|
  {
    if pos + 1 >= |t| then BadEscape(pos + 1)
    else if t[pos + 1] == 0x75 then
      if HexAt(t, pos + 2) then Escaped(HexValue(t, pos + 2), pos + 6) else BadEscape(pos + 2)
    else if SimpleEscape(t[pos + 1]) >= 0 then Escaped(SimpleEscape(t[pos + 1]), pos + 2)
    else BadEscape(pos + 2)
  }

  /** The rest of a string whose first part decoded to `out`. */
  function ScanString(limits: Limits, t: Str, pos: nat, out: Str): (r: Scan)
    requires pos <= |t|
    ensures pos <= r.pos <= |t| && (r.Got? ==> pos < r.pos)
    decreases |t| - pos
  {
    var end := RunEnd(t, pos);
    var out1 := out + t[pos..end];
    if end > pos && |out1| > limits.maxStringLength then Stop(Limit, end)
    else if end >= |t| then Stop(Syntax, end)
    else if t[end] == QUOTE then
      if Paired(out1) then Got(out1, end + 1) else Stop(Syntax, end + 1)
    else if t[end] < 0x20 then Stop(Syntax, end)
    else
      match ScanEscape(t, end)
      case BadEscape(at) => Stop(Syntax, at)
      case Escaped(u, next) =>
        if |out1| + 1 > limits.maxStringLength then Stop(Limit, next)
        else ScanString(limits, t, next, out1 + [u])
  }

  // ---------------------------------------------------------------- numbers

  predicate DigitHere(t: Str, pos: nat) { pos < |t| && IsDigit(t[pos]) }

  function ScanDigits(limits: Limits, t: Str, pos: nat, start: nat): (r: Part)
    requires start <= pos <= |t|
    ensures pos <= r.pos <= |t|
    decreases |t| - pos
  {
    if DigitHere(t, pos) then
      if pos + 1 - start > limits.maxStringLength then Halt(Limit, pos + 1) else ScanDigits(limits, t, pos + 1, start)
    else Upto(pos)
  }

  function ScanInteger(limits: Limits, t: Str, start: nat): (r: Part)
    requires start <= |t|
    ensures start <= r.pos <= |t|
  {
    var first := if start < |t| && t[start] == MINUS then start + 1 else start;
    if first < |t| && t[first] == ZERO then Upto(first + 1)
    else if DigitHere(t, first) then ScanDigits(limits, t, first, start)
    else Halt(Syntax, first)
  }

  function ScanFraction(limits: Limits, t: Str, pos: nat, start: nat): (r: Part)
    requires start <= pos <= |t|
    ensures pos <= r.pos <= |t|
  {
    if pos < |t| && t[pos] == DOT then
      if DigitHere(t, pos + 1) then ScanDigits(limits, t, pos + 1, start) else Halt(Syntax, pos + 1)
    else Upto(pos)
  }

  function ScanExponent(limits: Limits, t: Str, pos: nat, start: nat): (r: Part)
    requires start <= pos <= |t|
    ensures pos <= r.pos <= |t|
  {
    if pos < |t| && IsExp(t[pos]) then
      var digits := if pos + 1 < |t| && (t[pos + 1] == PLUS || t[pos + 1] == MINUS) then pos + 2 else pos + 1;
      if DigitHere(t, digits) then ScanDigits(limits, t, digits, start) else Halt(Syntax, digits)
    else Upto(pos)
  }

  function ScanNumber(limits: Limits, t: Str, start: nat): (r: Scan)
    requires start <= |t|
    ensures start <= r.pos <= |t|
  {
    match ScanInteger(limits, t, start)
    case Halt(kind, at) => Stop(kind, at)
    case Upto(a) =>
      match ScanFraction(limits, t, a, start)
      case Halt(kind, at) => Stop(kind, at)
      case Upto(b) =>
        match ScanExponent(limits, t, b, start)
        case Halt(kind, at) => Stop(kind, at)
        case Upto(end) =>
          if end - start > limits.maxStringLength then Stop(Limit, end)
          else if !limits.finite(t[start..end]) then Stop(Syntax, end)
          else Got(t[start..end], end)
  }
}
