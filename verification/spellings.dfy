/** The names, references and escapes of the formats, by the characters they are written with. */
module Spellings {
  import opened Text
  import JsonGrammar
  import LockfileKeys
  import LockfileAdapter
  import RollbackHistory

  // ---------------------------------------------------------------- rollback ids

  /** A digit or a capital, without I, L, O and U. */
  predicate IsUlidUnit(c: Unit) {
    Between(c, '0', '9') || (Between(c, 'A', 'Z') && c != 'I' as int && c != 'L' as int && c != 'O' as int && c != 'U' as int)
  }

  /** A directory is named for an invocation exactly when its name is `rb_` and 26 such characters. */
  lemma RollbackIdExactly(id: Str)
    ensures RollbackHistory.ValidName(id) <==> exists a: Str, u: Str :: id == a + u && Spelled(a, "rb_") && |u| == 26 && forall i :: 0 <= i < 26 ==> IsUlidUnit(u[i])
  {
    if RollbackHistory.ValidName(id) {
      var a, u := id[..3], id[3..];
      assert id == a + u && Spelled(a, "rb_");
      assert forall i :: 0 <= i < 26 ==> u[i] == id[i + 3];
    }
    if a: Str, u: Str :| id == a + u && Spelled(a, "rb_") && |u| == 26 && forall i :: 0 <= i < 26 ==> IsUlidUnit(u[i]) {
      assert forall i :: 3 <= i < 29 ==> id[i] == u[i - 3];
    }
  }

  // ---------------------------------------------------------------- lockfile references

  /** A reference is first-party exactly when it is `link:` and the target. */
  lemma LinkExactly(name: Str, ref: Str, target: Str)
    ensures LockfileAdapter.Resolve(name, ref) == LockfileAdapter.FirstParty(target) <==> exists a: Str :: ref == a + target && Spelled(a, "link:")
  {
    if LockfileAdapter.IsLink(ref) {
      assert ref == ref[..5] + ref[5..] && Spelled(ref[..5], "link:");
    }
    if a: Str :| ref == a + target && Spelled(a, "link:") {
      assert ref[..5] == a && a == LockfileAdapter.LINK && ref[5..] == target;
    }
  }

  /** Neither white space nor a control character, a parenthesis or a backslash. */
  lemma PlainExactly(c: Unit)
    ensures LockfileKeys.IsPlainUnit(c) <==>
            !LockfileKeys.IsSpace(c) && c >= ' ' as int && c != 127 && c != '(' as int && c != ')' as int && c != '\\' as int
  {
  }

  predicate IsSchemeUnit(c: Unit) {
    Between(c, 'a', 'z') || Between(c, '0', '9') || c == '+' as int || c == '.' as int || c == '-' as int
  }

  ghost predicate IsScheme(scheme: Str) {
    scheme != [] && Between(scheme[0], 'a', 'z') && forall i :: 0 <= i < |scheme| ==> IsSchemeUnit(scheme[i])
  }

  ghost predicate BeginsWith(s: Str, scheme: Str, rest: Str) { IsScheme(scheme) && s == scheme + [':' as int] + rest }

  /** A text has a protocol exactly when a scheme and a colon begin it. */
  lemma ProtocolExactly(s: Str)
    ensures LockfileKeys.HasProtocol(s) <==> exists scheme: Str, rest: Str :: BeginsWith(s, scheme, rest)
  {
    if LockfileKeys.HasProtocol(s) {
      var k :| 0 < k < |s| && s[k] == 0x3a && forall i :: 0 < i < k ==> LockfileKeys.IsProtocolUnit(s[i]);
      var scheme, rest := s[..k], s[k + 1..];
      assert BeginsWith(s, scheme, rest);
    }
    if scheme: Str, rest: Str :| BeginsWith(s, scheme, rest) {
      assert forall i :: 0 <= i < |scheme| ==> s[i] == scheme[i];
      assert s[|scheme|] == 0x3a;
    }
  }

  // ---------------------------------------------------------------- importer paths

  /** From `i` to `j` stands one part of the path, between slashes or its ends. */
  ghost predicate PartAt(p: Str, i: nat, j: nat) {
    && i <= j <= |p| && (forall k :: i <= k < j ==> p[k] != '/' as int)
    && (i == 0 || p[i - 1] == '/' as int) && (j == |p| || p[j] == '/' as int)
  }

  ghost predicate HasPart(p: Str, s: Str) { exists i: nat, j: nat :: PartAt(p, i, j) && p[i..j] == s }

  lemma PartOfRest(p: Str, slash: nat, i: nat, j: nat)
    requires slash < |p| && p[slash] == '/' as int && PartAt(p[slash + 1..], i, j)
    ensures PartAt(p, slash + 1 + i, slash + 1 + j) && p[slash + 1 + i..slash + 1 + j] == p[slash + 1..][i..j]
  {
  }

  lemma LaterPart(p: Str, slash: nat, i: nat, j: nat)
    requires slash < i <= |p| && p[slash] == '/' as int && PartAt(p, i, j)
    ensures PartAt(p[slash + 1..], i - slash - 1, j - slash - 1) && p[slash + 1..][i - slash - 1..j - slash - 1] == p[i..j]
  {
  }

  lemma FirstPart(p: Str, i: nat, j: nat)
    requires PartAt(p, i, j)
    ensures var slash := LockfileKeys.IndexOf(p, LockfileKeys.SLASH);
            if slash == -1 then i == 0 && j == |p| else (i == 0 && j == slash) || slash < i
  {
  }

  lemma {:induction false} SegmentsExactly(p: Str, s: Str)
    ensures s in LockfileAdapter.Segments(p) <==> HasPart(p, s)
  {
    var slash := LockfileKeys.IndexOf(p, LockfileKeys.SLASH);
    if slash == -1 {
      assert PartAt(p, 0, |p|) && p[0..|p|] == p;
    } else {
      SegmentsExactly(p[slash + 1..], s);
      assert PartAt(p, 0, slash);
      if HasPart(p[slash + 1..], s) {
        var i: nat, j: nat :| PartAt(p[slash + 1..], i, j) && p[slash + 1..][i..j] == s;
        PartOfRest(p, slash, i, j);
      }
    }
    if i: nat, j: nat :| PartAt(p, i, j) && p[i..j] == s {
      FirstPart(p, i, j);
      if slash >= 0 && i > 0 {
        LaterPart(p, slash, i, j);
      }
    }
  }

  predicate ProperSegment(s: Str) { !Spelled(s, "") && !Spelled(s, ".") && !Spelled(s, "..") }

  ghost predicate PartsProper(p: Str) { forall s :: HasPart(p, s) ==> ProperSegment(s) }

  predicate AllProper(segments: seq<Str>) { forall i :: 0 <= i < |segments| ==> ProperSegment(segments[i]) }

  lemma PartsExactly(p: Str, segments: seq<Str>)
    requires forall s :: s in segments <==> HasPart(p, s)
    ensures PartsProper(p) <==> AllProper(segments)
  {
    forall i | 0 <= i < |segments| ensures HasPart(p, segments[i]) {
      assert segments[i] in segments;
    }
  }

  lemma EmptyPart(p: Str)
    requires p == [] || p[0] == '/' as int
    ensures !PartsProper(p)
  {
    assert PartAt(p, 0, 0) && p[0..0] == [];
    assert HasPart(p, []) && !ProperSegment([]);
  }

  lemma SegmentWords(s: Str)
    ensures ProperSegment(s) <==> s != [] && s != [LockfileAdapter.DOT] && s != [LockfileAdapter.DOT, LockfileAdapter.DOT]
  {
  }

  lemma PartsAreSegments(p: Str)
    ensures PartsProper(p) <==> AllProper(LockfileAdapter.Segments(p))
  {
    var segments := LockfileAdapter.Segments(p);
    forall s ensures s in segments <==> HasPart(p, s) {
      SegmentsExactly(p, s);
    }
    PartsExactly(p, segments);
  }

  predicate NoneEmptyOrDots(segments: seq<Str>) {
    forall i :: 0 <= i < |segments| ==>
                  segments[i] != [] && segments[i] != [LockfileAdapter.DOT] && segments[i] != [LockfileAdapter.DOT, LockfileAdapter.DOT]
  }

  lemma AllProperWords(segments: seq<Str>)
    ensures AllProper(segments) <==> NoneEmptyOrDots(segments)
  {
    forall i | 0 <= i < |segments|
      ensures ProperSegment(segments[i]) <==>
              segments[i] != [] && segments[i] != [LockfileAdapter.DOT] && segments[i] != [LockfileAdapter.DOT, LockfileAdapter.DOT]
    {
      SegmentWords(segments[i]);
    }
  }

  predicate PathUnits(p: Str) {
    forall i :: 0 <= i < |p| ==> !LockfileKeys.IsSpace(p[i]) && !LockfileKeys.IsControl(p[i]) && p[i] != '\\' as int
  }

  predicate HasDrive(p: Str) { |p| > 1 && (Between(p[0], 'a', 'z') || Between(p[0], 'A', 'Z')) && p[1] == ':' as int }

  lemma PathFrom(p: Str, proper: bool)
    requires proper <==> NoneEmptyOrDots(LockfileAdapter.Segments(p))
    requires p == [] || p[0] == '/' as int ==> !proper
    ensures LockfileAdapter.IsImporterPath(p) <==> Spelled(p, ".") || (PathUnits(p) && !HasDrive(p) && proper)
  {
  }

  /** An importer path is `.`, or relative, of plain characters, and without an empty part, a `.` or a `..`. */
  lemma ImporterPathExactly(p: Str)
    ensures LockfileAdapter.IsImporterPath(p) <==> Spelled(p, ".") || (PathUnits(p) && !HasDrive(p) && PartsProper(p))
  {
    PartsAreSegments(p);
    AllProperWords(LockfileAdapter.Segments(p));
    if p == [] || p[0] == '/' as int {
      EmptyPart(p);
    }
    PathFrom(p, PartsProper(p));
  }

  // ---------------------------------------------------------------- JSON escapes

  /** The eight two-character escapes of section 7 of RFC 8259. */
  lemma SimpleEscapesExactly()
    ensures JsonGrammar.SimpleEscape('"' as int) == '"' as int
    ensures JsonGrammar.SimpleEscape('\\' as int) == '\\' as int
    ensures JsonGrammar.SimpleEscape('/' as int) == '/' as int
    ensures JsonGrammar.SimpleEscape('b' as int) == 8
    ensures JsonGrammar.SimpleEscape('f' as int) == 12
    ensures JsonGrammar.SimpleEscape('n' as int) == '\n' as int
    ensures JsonGrammar.SimpleEscape('r' as int) == '\r' as int
    ensures JsonGrammar.SimpleEscape('t' as int) == '\t' as int
    ensures forall c: Unit :: JsonGrammar.SimpleEscape(c) >= 0 ==> exists i :: 0 <= i < 8 && "\"\\/bfnrt"[i] as int == c
  {
    forall c: Unit | JsonGrammar.SimpleEscape(c) >= 0 ensures exists i :: 0 <= i < 8 && "\"\\/bfnrt"[i] as int == c {
      var i := if c == '"' as int then 0 else if c == '\\' as int then 1 else if c == '/' as int then 2 else if c == 'b' as int then 3
               else if c == 'f' as int then 4 else if c == 'n' as int then 5 else if c == 'r' as int then 6 else 7;
      assert "\"\\/bfnrt"[i] as int == c;
    }
  }

  /** White space, plain characters, exponent marks and digits of section 2 to 7 of RFC 8259. */
  lemma JsonUnitsExactly(c: Unit)
    ensures JsonGrammar.IsWs(c) <==> c == ' ' as int || c == '\t' as int || c == '\n' as int || c == '\r' as int
    ensures JsonGrammar.IsPlain(c) <==> c >= ' ' as int && c != '"' as int && c != '\\' as int
    ensures JsonGrammar.IsExp(c) <==> c == 'e' as int || c == 'E' as int
    ensures JsonGrammar.IsDigit(c) <==> Between(c, '0', '9')
    ensures JsonGrammar.HexDigit(c) >= 0 <==> Between(c, '0', '9') || Between(c, 'a', 'f') || Between(c, 'A', 'F')
    ensures forall n :: 0 <= n < 16 && (c == "0123456789abcdef"[n] as int || c == "0123456789ABCDEF"[n] as int) ==> JsonGrammar.HexDigit(c) == n
  {
  }
}
