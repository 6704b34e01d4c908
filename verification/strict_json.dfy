/**
 * The strict parser: closures over a shared cursor and node count in the source, a class here.
 *
 * Each method says what it read, that nothing else acceptable could have been read there, and, when it fails, that
 * nothing acceptable stands at the place where it started.
 */
module StrictJson {
  import opened Text
  import opened JsonGrammar
  import opened JsonScanner
  import opened JsonValues
  import opened JsonSteps
  import Obj = JsonObjectSteps

  datatype Outcome = Parsed(value: Json) | Error(kind: ErrorKind, position: nat)

  datatype KeyOutcome = KeyParsed(key: Str) | KeyError(kind: ErrorKind, position: nat)

  class Parser {
    const text: Str
    const limits: Limits
    var pos: nat
    var nodes: nat

    constructor (text: Str, limits: Limits)
      ensures this.text == text && this.limits == limits && pos == 0 && nodes == 0
    {
      this.text, this.limits, pos, nodes := text, limits, 0, 0;
    }

    // -------------------------------------------------------------- tokens

    method SkipWhitespace()
      requires pos <= |text|
      modifies this`pos
      ensures pos == SkipWs(text, old(pos))
    {
      while pos < |text| && IsWs(text[pos])
        invariant pos <= |text| && SkipWs(text, pos) == SkipWs(text, old(pos))
      {
        pos := pos + 1;
      }
    }

    /** The loop over a decoded string that rejects unpaired surrogates. */
    method CheckSurrogates(out: Str) returns (ok: bool)
      ensures ok == Paired(out)
    {
      var i := 0;
      while i < |out|
        invariant i <= |out| && Paired(out) == Paired(out[i..])
      {
        var u := out[i];
        if IsHigh(u) {
          var low := if i + 1 < |out| then out[i + 1] else 0;
          if !IsLow(low) {
            return false;
          }
          assert out[i..][2..] == out[i + 2..];
          i := i + 1;
        } else if IsLow(u) {
          return false;
        } else {
          assert out[i..][1..] == out[i + 1..];
        }
        i := i + 1;
      }
      return true;
    }

    method SkipRun()
      requires pos <= |text|
      modifies this`pos
      ensures pos == RunEnd(text, old(pos))
    {
      while pos < |text| && IsPlain(text[pos])
        invariant pos <= |text| && RunEnd(text, pos) == RunEnd(text, old(pos))
      {
        pos := pos + 1;
      }
    }

    /** One turn of the string loop: a run of plain characters, and the quote or escape that ends it. */
    method ParseSegment(out: Str) returns (done: bool, r: Scan, longer: Str)
      requires pos <= |text|
      modifies this`pos
      ensures old(pos) <= pos <= |text| && (!done ==> old(pos) < pos)
      ensures ScanString(limits, text, old(pos), out) == if done then r else ScanString(limits, text, pos, longer)
      ensures done ==> pos == r.pos
    {
      var runStart := pos;
      done, r := true, Stop(Syntax, pos);
      SkipRun();
      longer := out + text[runStart..pos];
      if pos > runStart && |longer| > limits.maxStringLength {
        r := Stop(Limit, pos);
      } else if pos >= |text| {
        r := Stop(Syntax, pos);
      } else if text[pos] == QUOTE {
        pos := pos + 1;
        var paired := CheckSurrogates(longer);
        r := if paired then Got(longer, pos) else Stop(Syntax, pos);
      } else if text[pos] < 0x20 {
        r := Stop(Syntax, pos);
      } else {
        var escape := ScanEscape(text, pos);
        pos := escape.pos;
        if escape.BadEscape? {
          r := Stop(Syntax, pos);
        } else if |longer| + 1 > limits.maxStringLength {
          r := Stop(Limit, pos);
        } else {
          longer := longer + [escape.unit];
          done := false;
        }
      }
    }

    /** Reads a string whose opening quote stands at the cursor. */
    method ParseString() returns (r: Scan)
      requires pos < |text|
      modifies this`pos
      ensures r == ScanString(limits, text, old(pos) + 1, []) && pos == r.pos
    {
      pos := pos + 1;
      ghost var whole := ScanString(limits, text, pos, []);
      var out: Str := [];
      var done := false;
      r := Stop(Syntax, pos);
      while !done
        invariant pos <= |text|
        invariant if done then r == whole && pos == r.pos else ScanString(limits, text, pos, out) == whole
        decreases !done, |text| - pos
      {
        done, r, out := ParseSegment(out);
      }
    }

    method ConsumeDigits(start: nat) returns (r: Part)
      requires start <= pos <= |text|
      modifies this`pos
      ensures r == ScanDigits(limits, text, old(pos), start) && pos == r.pos
    {
      while DigitHere(text, pos)
        invariant start <= pos <= |text|
        invariant ScanDigits(limits, text, old(pos), start) == ScanDigits(limits, text, pos, start)
        decreases |text| - pos
      {
        pos := pos + 1;
        if pos - start > limits.maxStringLength {
          return Halt(Limit, pos);
        }
      }
      return Upto(pos);
    }

    method ParseInteger() returns (r: Part)
      requires pos < |text|
      modifies this`pos
      ensures r == ScanInteger(limits, text, old(pos)) && pos == r.pos
    {
      var start := pos;
      if text[pos] == MINUS {
        pos := pos + 1;
      }
      if pos < |text| && text[pos] == ZERO {
        pos := pos + 1;
        return Upto(pos);
      }
      if DigitHere(text, pos) {
        r := ConsumeDigits(start);
      } else {
        r := Halt(Syntax, pos);
      }
    }

    method ParseFraction(start: nat) returns (r: Part)
      requires start <= pos <= |text|
      modifies this`pos
      ensures r == ScanFraction(limits, text, old(pos), start) && pos == r.pos
    {
      if pos >= |text| || text[pos] != DOT {
        return Upto(pos);
      }
      pos := pos + 1;
      if DigitHere(text, pos) {
        r := ConsumeDigits(start);
      } else {
        r := Halt(Syntax, pos);
      }
    }

    method ParseExponent(start: nat) returns (r: Part)
      requires start <= pos <= |text|
      modifies this`pos
      ensures r == ScanExponent(limits, text, old(pos), start) && pos == r.pos
    {
      if pos >= |text| || !IsExp(text[pos]) {
        return Upto(pos);
      }
      pos := pos + 1;
      if pos < |text| && (text[pos] == PLUS || text[pos] == MINUS) {
        pos := pos + 1;
      }
      if DigitHere(text, pos) {
        r := ConsumeDigits(start);
      } else {
        r := Halt(Syntax, pos);
      }
    }

    method ParseNumber() returns (r: Scan)
      requires pos < |text|
      modifies this`pos
      ensures r == ScanNumber(limits, text, old(pos)) && pos == r.pos
    {
      var start := pos;
      var part := ParseInteger();
      if part.Upto? {
        part := ParseFraction(start);
      }
      if part.Upto? {
        part := ParseExponent(start);
      }
      if part.Halt? {
        return Stop(part.kind, pos);
      }
      if pos - start > limits.maxStringLength {
        return Stop(Limit, pos);
      }
      var token := text[start..pos];
      return if limits.finite(token) then Got(token, pos) else Stop(Syntax, pos);
    }

    // -------------------------------------------------------------- values

    method ParseValue(depth: nat) returns (r: Outcome)
      requires pos <= |text|
      modifies this`pos, this`nodes
      ensures pos <= |text| && (r.Error? ==> r.position == pos)
      ensures r.Parsed? ==> old(pos) < pos && ReadValue(limits, text, old(pos), old(nodes), depth, r.value, pos, nodes)
      ensures r.Error? ==> Hopeless(limits, text, old(pos), old(nodes), depth)
      decreases |text| - pos, 2
    {
      ghost var start, nodes0 := pos, nodes;
      if depth > limits.maxDepth {
        TooDeep(limits, text, pos, nodes, depth);
        return Error(Limit, pos);
      }
      SkipWhitespace();
      ghost var p := pos;
      if pos >= |text| {
        PadHopeless(limits, text, start, p, nodes, depth);
        return Error(Syntax, pos);
      }
      r := ParseToken(depth);
      if r.Parsed? {
        PadRead(limits, text, start, p, nodes0, depth, r.value, pos, nodes);
      } else {
        PadHopeless(limits, text, start, p, nodes0, depth);
      }
    }

    /** The dispatch on the first character of a value. */
    method ParseToken(depth: nat) returns (r: Outcome)
      requires pos < |text| && depth <= limits.maxDepth
      modifies this`pos, this`nodes
      ensures pos <= |text| && (r.Error? ==> r.position == pos)
      ensures r.Parsed? ==> old(pos) < pos && ReadToken(limits, text, old(pos), old(nodes), depth, r.value, pos, nodes)
      ensures r.Error? ==> HopelessToken(limits, text, old(pos), old(nodes), depth)
      decreases |text| - pos, 1
    {
      var p, nodes0 := pos, nodes;
      if text[p] == OPEN_BRACE {
        r := ParseObject(depth);
      } else if text[p] == OPEN_BRACKET {
        r := ParseArray(depth);
      } else if text[p] == QUOTE {
        r := ParseStringValue(depth);
      } else if text[p] == MINUS || IsDigit(text[p]) {
        r := ParseNumberValue(depth);
      } else {
        r := ParseLiteral(depth);
      }
    }

    method ParseStringValue(ghost depth: nat) returns (r: Outcome)
      requires pos < |text| && text[pos] == QUOTE && depth <= limits.maxDepth
      modifies this`pos, this`nodes
      ensures pos <= |text| && (r.Error? ==> r.position == pos)
      ensures r.Parsed? ==> old(pos) < pos && ReadToken(limits, text, old(pos), old(nodes), depth, r.value, pos, nodes)
      ensures r.Error? ==> HopelessToken(limits, text, old(pos), old(nodes), depth)
    {
      ghost var p, nodes0 := pos, nodes;
      nodes := nodes + 1;
      if nodes > limits.maxNodes {
        NoNodesLeft(limits, text, p, nodes0, depth);
        return Error(Limit, pos);
      }
      StringRead(limits, text, p, nodes0, depth);
      var scan := ParseString();
      r := if scan.Got? then Parsed(String(scan.text)) else Error(scan.kind, pos);
    }

    method ParseNumberValue(ghost depth: nat) returns (r: Outcome)
      requires pos < |text| && (text[pos] == MINUS || IsDigit(text[pos])) && depth <= limits.maxDepth
      modifies this`pos, this`nodes
      ensures pos <= |text| && (r.Error? ==> r.position == pos)
      ensures r.Parsed? ==> old(pos) < pos && ReadToken(limits, text, old(pos), old(nodes), depth, r.value, pos, nodes)
      ensures r.Error? ==> HopelessToken(limits, text, old(pos), old(nodes), depth)
    {
      ghost var p, nodes0 := pos, nodes;
      nodes := nodes + 1;
      if nodes > limits.maxNodes {
        NoNodesLeft(limits, text, p, nodes0, depth);
        return Error(Limit, pos);
      }
      NumberRead(limits, text, p, nodes0, depth);
      var scan := ParseNumber();
      r := if scan.Got? then Parsed(Number(scan.text)) else Error(scan.kind, pos);
    }

    method ParseLiteral(ghost depth: nat) returns (r: Outcome)
      requires pos < |text| && text[pos] != OPEN_BRACE && text[pos] != OPEN_BRACKET && text[pos] != QUOTE
      requires text[pos] != MINUS && !IsDigit(text[pos]) && depth <= limits.maxDepth
      modifies this`pos, this`nodes
      ensures pos <= |text| && (r.Error? ==> r.position == pos)
      ensures r.Parsed? ==> old(pos) < pos && ReadToken(limits, text, old(pos), old(nodes), depth, r.value, pos, nodes)
      ensures r.Error? ==> HopelessToken(limits, text, old(pos), old(nodes), depth)
    {
      var literal, value := NULL, Null;
      if StartsWith(text, pos, TRUE) {
        literal, value := TRUE, Bool(true);
      } else if StartsWith(text, pos, FALSE) {
        literal, value := FALSE, Bool(false);
      } else if !StartsWith(text, pos, NULL) {
        NoToken(limits, text, pos, nodes, depth);
        return Error(Syntax, pos);
      }
      ghost var p, nodes0 := pos, nodes;
      pos := pos + |literal|;
      nodes := nodes + 1;
      if nodes > limits.maxNodes {
        NoNodesLeft(limits, text, p, nodes0, depth);
        return Error(Limit, pos);
      }
      LiteralRead(limits, text, p, nodes0, depth, literal, value);
      return Parsed(value);
    }

    /** One turn of the array loop: a value and the comma or bracket after it. */
    method ParseItem(depth: nat, ghost start: nat, ghost nodes0: nat, ghost items: seq<Json>) returns (r: Outcome, more: bool)
      requires pos <= |text| && ArrayProgress(limits, text, start, nodes0, depth, items, pos, nodes)
      modifies this`pos, this`nodes
      ensures pos <= |text| && (r.Error? ==> r.position == pos)
      ensures r.Parsed? ==> old(pos) < pos && nodes <= limits.maxNodes
      ensures r.Parsed? && more ==> ArrayProgress(limits, text, start, nodes0, depth, items + [r.value], pos, nodes)
      ensures r.Parsed? && !more ==> ArrayClosed(limits, text, start, nodes0, depth, items + [r.value], pos, nodes)
      ensures r.Error? ==> NoItems(limits, text, start, nodes0, depth)
      decreases |text| - pos, 3
    {
      ghost var at, nodesAt := pos, nodes;
      r := ParseValue(depth + 1);
      more := true;
      if r.Error? {
        ValueFails(limits, text, at, nodesAt, depth);
        ArrayFails(limits, text, start, nodes0, depth, items, at, nodesAt);
        return;
      }
      ghost var b := pos;
      SkipWhitespace();
      if pos < |text| && text[pos] == COMMA {
        ArrayGoesOn(limits, text, start, nodes0, depth, items, at, nodesAt, r.value, b, nodes, pos);
        pos := pos + 1;
      } else if pos < |text| && text[pos] == CLOSE_BRACKET {
        ArrayCloses(limits, text, start, nodes0, depth, items, at, nodesAt, r.value, b, nodes, pos);
        pos := pos + 1;
        more := false;
      } else {
        SeparatorFails(limits, text, at, nodesAt, depth, r.value, b, nodes, pos);
        ArrayFails(limits, text, start, nodes0, depth, items, at, nodesAt);
        r := Error(Syntax, pos);
      }
    }

    /** The array loop, from the first item to the closing bracket. */
    method ParseItems(depth: nat) returns (r: Outcome)
      requires pos <= |text|
      modifies this`pos, this`nodes
      ensures pos <= |text| && (r.Error? ==> r.position == pos)
      ensures r.Parsed? ==> old(pos) < pos && nodes <= limits.maxNodes && r.value.Array?
      ensures r.Parsed? ==> ArrayClosed(limits, text, old(pos), old(nodes), depth, r.value.items, pos, nodes)
      ensures r.Error? ==> NoItems(limits, text, old(pos), old(nodes), depth)
      decreases |text| - pos, 4
    {
      ghost var start, nodes0 := pos, nodes;
      var items: seq<Json> := [];
      var more := true;
      ArrayStarts(limits, text, start, nodes0, depth);
      while more
        invariant start <= pos <= |text|
        invariant more ==> ArrayProgress(limits, text, start, nodes0, depth, items, pos, nodes)
        invariant !more ==> start < pos && nodes <= limits.maxNodes && ArrayClosed(limits, text, start, nodes0, depth, items, pos, nodes)
        decreases more, |text| - pos
      {
        r, more := ParseItem(depth, start, nodes0, items);
        if r.Error? {
          return;
        }
        items := items + [r.value];
      }
      return Parsed(Array(items));
    }

    method ParseArray(depth: nat) returns (r: Outcome)
      requires pos < |text| && text[pos] == OPEN_BRACKET && depth <= limits.maxDepth
      modifies this`pos, this`nodes
      ensures pos <= |text| && (r.Error? ==> r.position == pos)
      ensures r.Parsed? ==> old(pos) < pos && ReadToken(limits, text, old(pos), old(nodes), depth, r.value, pos, nodes)
      ensures r.Error? ==> HopelessToken(limits, text, old(pos), old(nodes), depth)
      decreases |text| - pos, 0
    {
      ghost var open, nodes0 := pos, nodes;
      nodes := nodes + 1;
      if nodes > limits.maxNodes {
        NoNodesLeft(limits, text, open, nodes0, depth);
        return Error(Limit, pos);
      }
      pos := pos + 1;
      SkipWhitespace();
      ghost var p := pos;
      if pos < |text| && text[pos] == CLOSE_BRACKET {
        EmptyArray(limits, text, open, p, nodes0, depth);
        pos := pos + 1;
        return Parsed(Array([]));
      }
      r := ParseItems(depth);
      if r.Error? {
        ArrayHopeless(limits, text, open, p, nodes0, depth);
      } else {
        ArrayDone(limits, text, open, p, nodes0, depth, r.value.items, pos, nodes);
      }
    }

    /** The text of a key whose quote stands at the cursor, and the colon after it. */
    method ParseKeyText(read: map<Str, Json>, ghost start: nat) returns (r: KeyOutcome)
      requires start <= |text| && Blank(text, start, pos) && pos < |text| && text[pos] == QUOTE
      modifies this`pos
      ensures pos <= |text| && match r case KeyParsed(_) => old(pos) < pos case KeyError(_, position) => position == pos
      ensures match r
              case KeyParsed(key) => Obj.KeyRead(limits, text, start, read, key, pos)
              case KeyError(_, _) => Obj.NoKey(limits, text, start, read)
    {
      ghost var a := pos;
      var scan := ParseString();
      if scan.Stop? {
        Obj.KeyUnusable(limits, text, start, a, read, scan);
        return KeyError(scan.kind, pos);
      }
      if scan.text in read {
        Obj.KeyUnusable(limits, text, start, a, read, scan);
        return KeyError(DuplicateKey, pos);
      }
      SkipWhitespace();
      if pos >= |text| || text[pos] != COLON {
        Obj.NoColon(limits, text, start, a, read, scan, pos);
        return KeyError(Syntax, pos);
      }
      Obj.KeyAt(limits, text, start, a, scan, pos, read);
      pos := pos + 1;
      return KeyParsed(scan.text);
    }

    /** The key of a member, up to and including its colon; a key is a node. */
    method ParseKey(read: map<Str, Json>) returns (r: KeyOutcome)
      requires pos <= |text|
      modifies this`pos, this`nodes
      ensures pos <= |text| && (r.KeyError? ==> r.position == pos)
      ensures r.KeyParsed? ==> old(pos) < pos && nodes == old(nodes) + 1 <= limits.maxNodes
      ensures r.KeyParsed? ==> Obj.KeyRead(limits, text, old(pos), read, r.key, pos)
      ensures r.KeyError? ==> Obj.NoKey(limits, text, old(pos), read) || old(nodes) + 1 > limits.maxNodes
    {
      ghost var start := pos;
      SkipWhitespace();
      if pos >= |text| || text[pos] != QUOTE {
        Obj.NoQuote(limits, text, start, pos, read);
        return KeyError(Syntax, pos);
      }
      nodes := nodes + 1;
      if nodes > limits.maxNodes {
        return KeyError(Limit, pos);
      }
      r := ParseKeyText(read, start);
    }

    /** One turn of the object loop: a member and the comma or brace after it. */
    method ParseMember(depth: nat, members: map<Str, Json>, ghost start: nat, ghost nodes0: nat)
      returns (r: Outcome, key: Str, more: bool)
      requires pos <= |text| && Obj.ObjectProgress(limits, text, start, nodes0, depth, members, pos, nodes)
      modifies this`pos, this`nodes
      ensures pos <= |text| && (r.Error? ==> r.position == pos)
      ensures r.Parsed? ==> old(pos) < pos && nodes <= limits.maxNodes
      ensures r.Parsed? && more ==> Obj.ObjectProgress(limits, text, start, nodes0, depth, members[key := r.value], pos, nodes)
      ensures r.Parsed? && !more ==> Obj.ObjectClosed(limits, text, start, nodes0, depth, members[key := r.value], pos, nodes)
      ensures r.Error? ==> Obj.NoMembers(limits, text, start, nodes0, depth, map[])
      decreases |text| - pos, 3
    {
      ghost var at, nodesAt := pos, nodes;
      key, more := [], true;
      var k := ParseKey(members);
      if k.KeyError? {
        Obj.KeyFails(limits, text, at, nodesAt, depth, members);
        Obj.ObjectFails(limits, text, start, nodes0, depth, members, at, nodesAt);
        return Error(k.kind, pos), key, more;
      }
      key := k.key;
      ghost var colon := pos;
      r := ParseValue(depth + 1);
      if r.Error? {
        Obj.MemberValueFails(limits, text, at, nodesAt, depth, members, key, colon);
        Obj.ObjectFails(limits, text, start, nodes0, depth, members, at, nodesAt);
        return;
      }
      ghost var b := pos;
      SkipWhitespace();
      if pos < |text| && text[pos] == COMMA {
        Obj.ObjectGoesOn(limits, text, start, nodes0, depth, members, at, nodesAt, key, colon, r.value, b, nodes, pos);
        pos := pos + 1;
      } else if pos < |text| && text[pos] == CLOSE_BRACE {
        Obj.ObjectCloses(limits, text, start, nodes0, depth, members, at, nodesAt, key, colon, r.value, b, nodes, pos);
        pos := pos + 1;
        more := false;
      } else {
        Obj.MemberSeparatorFails(limits, text, at, nodesAt, depth, members, key, colon, r.value, b, nodes, pos);
        Obj.ObjectFails(limits, text, start, nodes0, depth, members, at, nodesAt);
        r := Error(Syntax, pos);
      }
    }

    /** The object loop, from the first member to the closing brace. */
    method ParseMembers(depth: nat) returns (r: Outcome)
      requires pos <= |text|
      modifies this`pos, this`nodes
      ensures pos <= |text| && (r.Error? ==> r.position == pos)
      ensures r.Parsed? ==> old(pos) < pos && nodes <= limits.maxNodes && r.value.Object?
      ensures r.Parsed? ==> Obj.ObjectClosed(limits, text, old(pos), old(nodes), depth, r.value.members, pos, nodes)
      ensures r.Error? ==> Obj.NoMembers(limits, text, old(pos), old(nodes), depth, map[])
      decreases |text| - pos, 4
    {
      ghost var start, nodes0 := pos, nodes;
      var members: map<Str, Json> := map[];
      var more := true;
      Obj.ObjectStarts(limits, text, start, nodes0, depth);
      while more
        invariant start <= pos <= |text|
        invariant more ==> Obj.ObjectProgress(limits, text, start, nodes0, depth, members, pos, nodes)
        invariant !more ==> start < pos && nodes <= limits.maxNodes && Obj.ObjectClosed(limits, text, start, nodes0, depth, members, pos, nodes)
        decreases more, |text| - pos
      {
        var key;
        r, key, more := ParseMember(depth, members, start, nodes0);
        if r.Error? {
          return;
        }
        members := members[key := r.value];
      }
      return Parsed(Object(members));
    }

    method ParseObject(depth: nat) returns (r: Outcome)
      requires pos < |text| && text[pos] == OPEN_BRACE && depth <= limits.maxDepth
      modifies this`pos, this`nodes
      ensures pos <= |text| && (r.Error? ==> r.position == pos)
      ensures r.Parsed? ==> old(pos) < pos && ReadToken(limits, text, old(pos), old(nodes), depth, r.value, pos, nodes)
      ensures r.Error? ==> HopelessToken(limits, text, old(pos), old(nodes), depth)
      decreases |text| - pos, 0
    {
      ghost var open, nodes0 := pos, nodes;
      nodes := nodes + 1;
      if nodes > limits.maxNodes {
        NoNodesLeft(limits, text, open, nodes0, depth);
        return Error(Limit, pos);
      }
      pos := pos + 1;
      SkipWhitespace();
      ghost var p := pos;
      if pos < |text| && text[pos] == CLOSE_BRACE {
        Obj.EmptyObject(limits, text, open, p, nodes0, depth);
        pos := pos + 1;
        return Parsed(Object(map[]));
      }
      r := ParseMembers(depth);
      if r.Error? {
        Obj.ObjectHopeless(limits, text, open, p, nodes0, depth);
      } else {
        Obj.ObjectDone(limits, text, open, p, nodes0, depth, r.value.members, pos, nodes);
      }
    }
  }

  // ---------------------------------------------------------------- the whole text

  /** The text is one value of the grammar, within the limits. */
  ghost predicate Accepts(limits: Limits, t: Str, v: Json) {
    Document(t, v) && Fits(limits, v, 1) && Nodes(v) <= limits.maxNodes
  }

  lemma DocumentRead(limits: Limits, t: Str, v: Json, end: nat, nodes: nat, p: nat)
    requires ReadValue(limits, t, 0, 0, 1, v, end, nodes) && Blank(t, end, p) && (p < |t| ==> !IsWs(t[p]))
    ensures p == |t| ==> Accepts(limits, t, v)
    ensures forall w :: Accepts(limits, t, w) ==> p == |t| && w == v
  {
    forall w | Accepts(limits, t, w) ensures p == |t| && w == v {
      var j: nat :| Blank(t, j, |t|) && PaddedAt(t, 0, j, w);
      FollowsBlank(t, j, |t|);
      assert Acceptable(limits, t, 0, 0, 1, j, w);
    }
  }

  lemma DocumentHopeless(limits: Limits, t: Str)
    requires Hopeless(limits, t, 0, 0, 1)
    ensures forall w :: !Accepts(limits, t, w)
  {
    forall w ensures !Accepts(limits, t, w) {
      if Accepts(limits, t, w) {
        var j := DocumentAcceptable(limits, t, w);
      }
    }
  }

  lemma DocumentAcceptable(limits: Limits, t: Str, w: Json) returns (j: nat)
    requires Accepts(limits, t, w)
    ensures Acceptable(limits, t, 0, 0, 1, j, w)
  {
    j :| Blank(t, j, |t|) && PaddedAt(t, 0, j, w);
    FollowsBlank(t, j, |t|);
  }

  /** A limit as supplied by a caller: left out, a safe integer, or some other number. */
  datatype Supplied = Omitted | Safe(n: int) | Unsafe

  const HARD_MAX_DEPTH := 128
  const DEFAULT_MAX_NODES := 5_000_000
  const DEFAULT_MAX_STRING_LENGTH := 4_000_000

  /** The limit to use, or -1 when the supplied one is invalid. */
  function ValidateLimit(supplied: Supplied, default: nat, hardMax: int): (r: int)
    ensures r == -1 || r == default || (supplied == Safe(r) && r > 0 && (hardMax >= 0 ==> r <= hardMax))
    ensures r == -1 <==> supplied.Unsafe? || (supplied.Safe? && (supplied.n <= 0 || (hardMax >= 0 && supplied.n > hardMax)))
  {
    match supplied
    case Omitted => default
    case Unsafe => -1
    case Safe(n) => if n <= 0 || (hardMax >= 0 && n > hardMax) then -1 else n
  }

  /** The limits a call works with, when all those supplied are valid. */
  function EffectiveLimits(depth: Supplied, nodes: Supplied, length: Supplied, finite: Str -> bool): Limits {
    var d, n, l := ValidateLimit(depth, HARD_MAX_DEPTH, HARD_MAX_DEPTH), ValidateLimit(nodes, DEFAULT_MAX_NODES, -1),
                   ValidateLimit(length, DEFAULT_MAX_STRING_LENGTH, -1);
    Limits(if d < 0 then 0 else d, if n < 0 then 0 else n, if l < 0 then 0 else l, finite)
  }

  predicate ValidSupplied(depth: Supplied, nodes: Supplied, length: Supplied) {
    ValidateLimit(depth, HARD_MAX_DEPTH, HARD_MAX_DEPTH) >= 0 && ValidateLimit(nodes, DEFAULT_MAX_NODES, -1) >= 0
    && ValidateLimit(length, DEFAULT_MAX_STRING_LENGTH, -1) >= 0
  }

  /** A limit left out or given within its bound. */
  predicate Given(supplied: Supplied, bounded: bool) { supplied.Omitted? || (supplied.Safe? && supplied.n > 0 && (bounded ==> supplied.n <= 128)) }

  /** The limits are valid exactly when each is left out or positive and, for the depth, at most 128. */
  lemma ValidLimitsExactly(depth: Supplied, nodes: Supplied, length: Supplied)
    ensures ValidSupplied(depth, nodes, length) <==> Given(depth, true) && Given(nodes, false) && Given(length, false)
  {
  }

  /** Valid limits are used as given, and otherwise depth 128, five million nodes and four million characters. */
  lemma LimitsUsed(depth: Supplied, nodes: Supplied, length: Supplied, finite: Str -> bool)
    requires ValidSupplied(depth, nodes, length)
    ensures EffectiveLimits(depth, nodes, length, finite) ==
            Limits(if depth.Omitted? then 128 else depth.n, if nodes.Omitted? then 5_000_000 else nodes.n,
                   if length.Omitted? then 4_000_000 else length.n, finite)
  {
    ValidLimitsExactly(depth, nodes, length);
  }

  datatype Report = Accepted(value: Json) | Rejected(kind: ErrorKind, position: nat) | InvalidLimits

  /** Accepts a text exactly when it spells a value within the limits, and then returns that value. */
  method ParseStrictJson(text: Str, depth: Supplied, nodes: Supplied, length: Supplied, finite: Str -> bool) returns (r: Report)
    ensures r.InvalidLimits? <==> !ValidSupplied(depth, nodes, length)
    ensures ValidSupplied(depth, nodes, length) ==>
              forall v :: r == Accepted(v) <==> Accepts(EffectiveLimits(depth, nodes, length, finite), text, v)
    ensures r.Rejected? ==> r.position <= |text|
  {
    if !ValidSupplied(depth, nodes, length) {
      return InvalidLimits;
    }
    var limits := EffectiveLimits(depth, nodes, length, finite);
    var parser := new Parser(text, limits);
    var outcome := parser.ParseValue(1);
    if outcome.Error? {
      DocumentHopeless(limits, text);
      return Rejected(outcome.kind, outcome.position);
    }
    ghost var end := parser.pos;
    parser.SkipWhitespace();
    DocumentRead(limits, text, outcome.value, end, parser.nodes, parser.pos);
    if parser.pos != |text| {
      return Rejected(Syntax, parser.pos);
    }
    return Accepted(outcome.value);
  }
}
