/** Keys of a pnpm v9 lockfile: `name@version`, with a nested peer-resolution suffix. */
module LockfileKeys {
  import opened Text

  const OPEN: Unit := 0x28
  const CLOSE: Unit := 0x29
  const SLASH: Unit := 0x2f
  const EQUALS: Unit := 0x3d

  // ---------------------------------------------------------------- characters

  /** What `\s` matches. */
  predicate IsSpace(c: Unit) {
    9 <= c <= 13 || c == 0x20 || c == 0xa0 || c == 0x1680 || 0x2000 <= c <= 0x200a || c == 0x2028 || c == 0x2029
    || c == 0x202f || c == 0x205f || c == 0x3000 || c == 0xfeff
  }

  predicate IsControl(c: Unit) { c < 0x20 || c == 0x7f }

  /** Allowed in names and versions alike: not a parenthesis, a backslash, white space or a control character. */
  predicate IsPlainUnit(c: Unit) { c != OPEN && c != CLOSE && c != 0x5c && !IsSpace(c) && !IsControl(c) }

  predicate IsLower(c: Unit) { 0x61 <= c <= 0x7a }

  predicate IsProtocolUnit(c: Unit) { IsLower(c) || 0x30 <= c <= 0x39 || c == 0x2b || c == 0x2e || c == 0x2d }

  /** `^[a-z][a-z0-9+.-]*:` */
  predicate HasProtocol(s: Str) {
    |s| > 0 && IsLower(s[0]) && exists k :: 0 < k < |s| && s[k] == 0x3a && forall i :: 0 < i < k ==> IsProtocolUnit(s[i])
  }

  /** `indexOf`, or -1. */
  function IndexOf(s: Str, c: Unit): (r: int)
    ensures -1 <= r < |s| && (r >= 0 ==> s[r] == c)
    ensures forall i :: 0 <= i < (if r >= 0 then r else |s|) ==> s[i] != c
  {
    if s == [] then -1
    else if s[0] == c then 0
    else
      var r := IndexOf(s[1..], c);
      assert forall i :: 0 < i < |s| ==> s[i] == s[1..][i - 1];
      if r < 0 then -1 else r + 1
  }

  /** `lastIndexOf`, or -1. */
  function LastIndexOf(s: Str, c: Unit): (r: int)
    ensures -1 <= r < |s| && (r >= 0 ==> s[r] == c)
    ensures forall i :: r < i < |s| ==> s[i] != c
  {
    if s == [] then -1
    else if s[|s| - 1] == c then |s| - 1
    else LastIndexOf(s[..|s| - 1], c)
  }

  // ---------------------------------------------------------------- names and bases

  /** `isSafeRegistryBase`. */
  predicate IsSafeBase(s: Str) {
    s != [] && EQUALS !in s && (forall i :: 0 <= i < |s| ==> IsPlainUnit(s[i])) && !HasProtocol(s)
  }

  /** `isValidPackageName`: a bare name, or one scope and a name. */
  predicate IsPackageName(name: Str) {
    && name != [] && (forall i :: 0 <= i < |name| ==> IsPlainUnit(name[i]))
    && if name[0] == AT then
         var slash := IndexOf(name, SLASH);
         slash > 1 && slash == LastIndexOf(name, SLASH) && slash < |name| - 1 && AT !in name[1..slash] && AT !in name[slash + 1..]
       else AT !in name && SLASH !in name
  }

  datatype NameVersion = NotOne | NameVersion(name: Str, version: Str)

  function ParseNameVersion(base: Str): NameVersion {
    var at := LastIndexOf(base, AT);
    if at <= 0 then NotOne
    else
      var name, version := base[..at], base[at + 1..];
      if version == [] || AT in version || EQUALS in version || !IsPackageName(name) then NotOne else NameVersion(name, version)
  }

  predicate IsVersion(v: Str) { v != [] && AT !in v && EQUALS !in v }

  /** A base parses to a name and a version exactly when it is that name, `@`, and that version. */
  lemma NameVersionExactly(base: Str, name: Str, version: Str)
    ensures ParseNameVersion(base) == NameVersion(name, version) <==>
              base == name + [AT] + version && IsPackageName(name) && IsVersion(version)
  {
    var at := LastIndexOf(base, AT);
    if base == name + [AT] + version && IsPackageName(name) && IsVersion(version) {
      LastAtHere(base, name, version);
    } else if at > 0 {
      assert base == base[..at] + [AT] + base[at + 1..];
    }
  }

  lemma LastAtHere(base: Str, name: Str, version: Str)
    requires base == name + [AT] + version && AT !in version
    ensures LastIndexOf(base, AT) == |name| && base[..|name|] == name && base[|name| + 1..] == version
  {
    assert base[|name|] == AT;
    forall i | |name| < i < |base| ensures base[i] != AT {
      assert base[i] == version[i - |name| - 1];
    }
  }

  predicate IsBase(s: Str) { IsSafeBase(s) && ParseNameVersion(s).NameVersion? }

  // ---------------------------------------------------------------- the language of suffixes

  /** Zero or more groups `(` base suffix `)`. */
  ghost predicate IsSuffix(s: Str)
    decreases |s|, 0
  {
    s == [] || exists k: nat :: Group(s, k)
  }

  /** The first group of `s` ends at `k`, and a suffix follows. */
  ghost predicate Group(s: Str, k: nat)
    decreases |s|, -1
  {
    0 < k < |s| && s[0] == OPEN && s[k] == CLOSE && IsContext(s[1..k]) && IsSuffix(s[k + 1..])
  }

  /** A base and its own suffix. */
  ghost predicate IsContext(s: Str)
    decreases |s|, 1
  {
    exists k: nat :: SplitsContext(s, k)
  }

  /** The first `k` characters of `s` are a base and the others a suffix. */
  ghost predicate SplitsContext(s: Str, k: nat)
    decreases |s|, 0
  {
    k <= |s| && k > 0 && IsBase(s[..k]) && IsSuffix(s[k..])
  }

  lemma FirstGroup(s: Str) returns (k: nat)
    requires IsSuffix(s) && |s| > 0
    ensures Group(s, k)
  {
    k :| Group(s, k);
  }

  // ---------------------------------------------------------------- balance

  /** Opening minus closing parentheses among the first `n` units. */
  function Depth(s: Str, n: nat): int
    requires n <= |s|
  {
    if n == 0 then 0 else Depth(s, n - 1) + if s[n - 1] == OPEN then 1 else if s[n - 1] == CLOSE then -1 else 0
  }

  ghost predicate Balanced(s: Str) {
    Depth(s, |s|) == 0 && forall n :: 0 <= n <= |s| ==> Depth(s, n) >= 0
  }

  lemma {:induction false} DepthPrefix(a: Str, b: Str, n: nat)
    requires n <= |a|
    ensures Depth(a + b, n) == Depth(a, n)
  {
    if n > 0 {
      DepthPrefix(a, b, n - 1);
    }
  }

  lemma {:induction false} DepthAfter(a: Str, b: Str, n: nat)
    requires n <= |b|
    ensures Depth(a + b, |a| + n) == Depth(a, |a|) + Depth(b, n)
  {
    if n == 0 {
      DepthPrefix(a, b, |a|);
    } else {
      DepthAfter(a, b, n - 1);
    }
  }

  lemma BalancedJoin(a: Str, b: Str)
    requires Balanced(a) && Balanced(b)
    ensures Balanced(a + b)
  {
    forall n | 0 <= n <= |a + b| ensures Depth(a + b, n) >= 0 {
      if n <= |a| {
        DepthPrefix(a, b, n);
      } else {
        DepthAfter(a, b, n - |a|);
      }
    }
    DepthAfter(a, b, |b|);
  }

  lemma {:induction false} FlatDepth(s: Str, n: nat)
    requires n <= |s| && forall i :: 0 <= i < |s| ==> s[i] != OPEN && s[i] != CLOSE
    ensures Depth(s, n) == 0
  {
    if n > 0 {
      FlatDepth(s, n - 1);
    }
  }

  lemma BaseFlat(s: Str)
    requires IsBase(s)
    ensures Balanced(s) && EQUALS !in s && OPEN !in s
  {
    forall n | 0 <= n <= |s| ensures Depth(s, n) == 0 {
      FlatDepth(s, n);
    }
  }

  /** Inside a group the depth is at least one; at its closing parenthesis it returns to zero. */
  lemma GroupDepth(inner: Str, rest: Str, n: nat)
    requires Balanced(inner) && n <= |inner| + 1
    ensures var s := [OPEN] + inner + [CLOSE] + rest;
            (0 < n ==> Depth(s, n) >= 1) && Depth(s, |inner| + 2) == 0
  {
    var s := [OPEN] + inner + [CLOSE] + rest;
    var a := [OPEN] + inner;
    assert s == a + ([CLOSE] + rest);
    assert s == [OPEN] + (inner + ([CLOSE] + rest));
    if n > 0 {
      DepthPrefix(a, [CLOSE] + rest, n);
      DepthAfter([OPEN], inner, n - 1);
      assert Depth([OPEN], 1) == 1;
    }
    DepthPrefix(a, [CLOSE] + rest, |a|);
    DepthAfter([OPEN], inner, |inner|);
    assert Depth([OPEN], 1) == 1;
    assert s[|inner| + 1] == CLOSE;
  }

  lemma GroupBalanced(inner: Str)
    requires Balanced(inner)
    ensures Balanced([OPEN] + inner + [CLOSE])
  {
    var s := [OPEN] + inner + [CLOSE];
    assert s + [] == s;
    forall n | 0 <= n <= |s| ensures Depth(s, n) >= 0 {
      GroupDepth(inner, [], if n <= |inner| + 1 then n else 0);
    }
    GroupDepth(inner, [], 0);
  }

  lemma SplitGroup(s: Str, k: nat)
    requires 0 < k < |s| && s[0] == OPEN && s[k] == CLOSE
    ensures s == [OPEN] + s[1..k] + [CLOSE] + s[k + 1..]
  {
  }

  lemma NoEquals(inner: Str, rest: Str)
    requires EQUALS !in inner && EQUALS !in rest
    ensures EQUALS !in [OPEN] + inner + [CLOSE] + rest
  {
  }

  lemma {:induction false} SuffixShape(s: Str)
    requires IsSuffix(s)
    ensures Balanced(s) && EQUALS !in s && (s != [] ==> s[0] == OPEN)
    decreases |s|, 0
  {
    if s != [] {
      var k := FirstGroup(s);
      var inner, rest := s[1..k], s[k + 1..];
      ContextShape(inner);
      SuffixShape(rest);
      SplitGroup(s, k);
      GroupBalanced(inner);
      BalancedJoin([OPEN] + inner + [CLOSE], rest);
      NoEquals(inner, rest);
    }
  }

  lemma ContextSplit(s: Str) returns (k: nat)
    requires IsContext(s)
    ensures SplitsContext(s, k)
  {
    k :| SplitsContext(s, k);
  }

  lemma SplitIsContext(s: Str, k: nat)
    requires SplitsContext(s, k)
    ensures IsContext(s)
  {
  }

  lemma ContextParts(s: Str) returns (base: Str, rest: Str)
    requires IsContext(s)
    ensures s == base + rest && IsBase(base) && IsSuffix(rest) && |rest| < |s|
  {
    var k := ContextSplit(s);
    base, rest := s[..k], s[k..];
  }

  lemma {:induction false} ContextShape(s: Str)
    requires IsContext(s)
    ensures Balanced(s) && EQUALS !in s
    decreases |s|, 1
  {
    var base, rest := ContextParts(s);
    BaseFlat(base);
    SuffixShape(rest);
    BalancedJoin(base, rest);
  }

  /** The scan that looks for the matching parenthesis stops where the group ends. */
  lemma GroupEnds(s: Str, k: nat, j: nat)
    requires Group(s, k) && j < |s| && Depth(s, j + 1) == 0 && forall n :: 0 < n <= j ==> Depth(s, n) > 0
    ensures j == k
  {
    SplitGroup(s, k);
    var inner, rest := s[1..k], s[k + 1..];
    ContextShape(inner);
    assert Depth(s, k + 1) == 0 by { GroupDepth(inner, rest, 0); }
    if j < k {
      GroupDepth(inner, rest, j + 1);
    }
  }

  // ---------------------------------------------------------------- the recognizer

  /** The inner loop: the parenthesis that closes the one at `i`, or the end of the text. */
  method MatchingParenthesis(s: Str, i: nat) returns (j: nat)
    requires i < |s| && s[i] == OPEN
    ensures i < j <= |s| && (forall n :: 0 < n <= j - i ==> Depth(s[i..], n) > 0)
    ensures j < |s| ==> s[j] == CLOSE && Depth(s[i..], j - i + 1) == 0
  {
    var depth := 0;
    j := i;
    ghost var t := s[i..];
    while j < |s|
      invariant i <= j <= |s| && depth == Depth(t, j - i)
      invariant forall n :: 0 < n <= j - i ==> Depth(t, n) > 0
    {
      assert t[j - i] == s[j] && Depth(t, j - i + 1) == Depth(t, j - i) + if t[j - i] == OPEN then 1 else if t[j - i] == CLOSE then -1 else 0;
      if s[j] == OPEN {
        depth := depth + 1;
      } else if s[j] == CLOSE {
        depth := depth - 1;
        if depth == 0 {
          return;
        }
      }
      j := j + 1;
    }
  }

  lemma NoGroup(s: Str)
    requires IsSuffix(s) && s != []
    ensures s[0] == OPEN && exists n :: 0 < n <= |s| && Depth(s, n) == 0
  {
    var k := FirstGroup(s);
    SplitGroup(s, k);
    ContextShape(s[1..k]);
    GroupDepth(s[1..k], s[k + 1..], 0);
  }

  /** Accepts exactly the suffixes. */
  method IsValidPeerSuffix(suffix: Str) returns (ok: bool)
    ensures ok <==> IsSuffix(suffix)
    decreases |suffix|, 0
  {
    var i := 0;
    assert suffix[0..] == suffix;
    while i < |suffix|
      invariant i <= |suffix| && (IsSuffix(suffix) <==> IsSuffix(suffix[i..]))
    {
      if suffix[i] != OPEN {
        NotOpened(suffix[i..]);
        return false;
      }
      var j := MatchingParenthesis(suffix, i);
      if j >= |suffix| {
        Unclosed(suffix[i..]);
        return false;
      }
      GroupAt(suffix, i, j);
      var context := IsValidPeerContext(suffix[i + 1..j]);
      if !context {
        return false;
      }
      i := j + 1;
    }
    NothingLeft(suffix[i..]);
    return true;
  }

  lemma NothingLeft(s: Str)
    requires |s| == 0
    ensures IsSuffix(s)
  {
  }

  lemma NotOpened(s: Str)
    requires |s| > 0 && s[0] != OPEN
    ensures !IsSuffix(s)
  {
    if IsSuffix(s) {
      NoGroup(s);
    }
  }

  lemma Unclosed(s: Str)
    requires s != [] && forall n :: 0 < n <= |s| ==> Depth(s, n) > 0
    ensures !IsSuffix(s)
  {
    if IsSuffix(s) {
      NoGroup(s);
    }
  }

  lemma GroupAt(suffix: Str, i: nat, j: nat)
    requires i < j < |suffix| && suffix[i] == OPEN && suffix[j] == CLOSE && Depth(suffix[i..], j - i + 1) == 0
    requires forall n :: 0 < n <= j - i ==> Depth(suffix[i..], n) > 0
    ensures IsSuffix(suffix[i..]) <==> IsContext(suffix[i + 1..j]) && IsSuffix(suffix[j + 1..])
  {
    var s, k := suffix[i..], j - i;
    assert s[1..k] == suffix[i + 1..j] && s[k + 1..] == suffix[j + 1..];
    GroupHere(s, k);
  }

  lemma GroupHere(s: Str, k: nat)
    requires 0 < k < |s| && s[0] == OPEN && s[k] == CLOSE && Depth(s, k + 1) == 0
    requires forall n :: 0 < n <= k ==> Depth(s, n) > 0
    ensures IsSuffix(s) <==> IsContext(s[1..k]) && IsSuffix(s[k + 1..])
  {
    if IsSuffix(s) {
      var k' := FirstGroup(s);
      GroupEnds(s, k', k);
    } else {
      assert !Group(s, k);
    }
  }

  /** A text splits into a base and a suffix in one way only: at its first parenthesis. */
  lemma SplitsAtParenthesis(s: Str, k: nat)
    requires 0 < k <= |s| && IsBase(s[..k]) && IsSuffix(s[k..])
    ensures k == FirstParenthesis(s)
  {
    BaseFlat(s[..k]);
    SuffixShape(s[k..]);
    var p := IndexOf(s, OPEN);
    forall i | 0 <= i < k ensures s[i] != OPEN {
      assert s[i] == s[..k][i];
    }
    if k < |s| {
      assert s[k] == s[k..][0];
    }
  }

  /** Where the suffix of a key starts. */
  function FirstParenthesis(s: Str): (r: nat)
    ensures r <= |s|
  {
    if IndexOf(s, OPEN) == -1 then |s| else IndexOf(s, OPEN)
  }

  lemma ContextExactly(s: Str)
    ensures IsContext(s) <==> FirstParenthesis(s) > 0 && IsBase(s[..FirstParenthesis(s)]) && IsSuffix(s[FirstParenthesis(s)..])
  {
    if IsContext(s) {
      var k := ContextSplit(s);
      SplitsAtParenthesis(s, k);
    } else if SplitsContext(s, FirstParenthesis(s)) {
      SplitIsContext(s, FirstParenthesis(s));
    }
  }

  method IsValidPeerContext(inner: Str) returns (ok: bool)
    ensures ok <==> IsContext(inner)
    decreases |inner|, 1
  {
    ContextExactly(inner);
    if EQUALS in inner {
      if IsContext(inner) {
        ContextShape(inner);
      }
      return false;
    }
    var paren := IndexOf(inner, OPEN);
    var base := if paren == -1 then inner else inner[..paren];
    assert base == inner[..FirstParenthesis(inner)];
    if !IsSafeBase(base) || ParseNameVersion(base).NotOne? {
      return false;
    }
    if paren == -1 {
      NothingLeft(inner[FirstParenthesis(inner)..]);
      return true;
    }
    ok := IsValidPeerSuffix(inner[paren..]);
  }

  datatype LockfileKey = Unsupported | LockfileKey(name: Str, version: Str, base: Str, suffix: Str)

  /** `r` takes `key` apart into a name, a version and a suffix. */
  ghost predicate TakesApart(key: Str, r: LockfileKey) {
    && r.LockfileKey? && key == r.base + r.suffix && r.base == r.name + [AT] + r.version
    && IsPackageName(r.name) && IsVersion(r.version) && IsSafeBase(r.base) && IsSuffix(r.suffix)
  }

  lemma TakenApart(key: Str, end: nat, name: Str, version: Str)
    requires end <= |key| && IsSafeBase(key[..end]) && ParseNameVersion(key[..end]) == NameVersion(name, version) && IsSuffix(key[end..])
    ensures TakesApart(key, LockfileKey(name, version, key[..end], key[end..]))
  {
    NameVersionExactly(key[..end], name, version);
  }

  /** A key is supported exactly when it is `name@version` and a suffix, and it is then taken apart in the only way. */
  method ParseLockfileKey(key: Str) returns (r: LockfileKey)
    ensures r.LockfileKey? <==> IsContext(key)
    ensures r.LockfileKey? ==> TakesApart(key, r)
  {
    ContextExactly(key);
    var end := FirstParenthesis(key);
    var base, suffix := key[..end], key[end..];
    if !IsSafeBase(base) {
      return Unsupported;
    }
    var nv := ParseNameVersion(base);
    if nv.NotOne? {
      return Unsupported;
    }
    var ok := IsValidPeerSuffix(suffix);
    if !ok {
      return Unsupported;
    }
    TakenApart(key, end, nv.name, nv.version);
    return LockfileKey(nv.name, nv.version, base, suffix);
  }

  /** There is one way to take a key apart. */
  lemma KeyUnambiguous(key: Str, r: LockfileKey, r': LockfileKey)
    requires TakesApart(key, r) && TakesApart(key, r')
    ensures r == r' && IsContext(key)
  {
    PartsAreUnique(key, r);
    PartsAreUnique(key, r');
  }

  lemma PartsAreUnique(key: Str, r: LockfileKey)
    requires TakesApart(key, r)
    ensures IsContext(key) && r.base == key[..FirstParenthesis(key)] && r.suffix == key[FirstParenthesis(key)..]
    ensures ParseNameVersion(r.base) == NameVersion(r.name, r.version)
  {
    NameVersionExactly(r.base, r.name, r.version);
    assert key[..|r.base|] == r.base && key[|r.base|..] == r.suffix;
    SplitsAtParenthesis(key, |r.base|);
    SplitIsContext(key, |r.base|);
  }
}
