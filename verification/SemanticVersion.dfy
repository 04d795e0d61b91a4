/** Bumping the patch of a semantic version (contract_candidates.py, _SEMANTIC_VERSION and _bump_patch). */
module SemanticVersion {
  import opened Wrappers
  import opened Decimal

  /** The end of the run of digits that starts at `i`. */
  function DigitsEnd(s: string, i: nat): (e: nat)
    requires i <= |s|
    ensures i <= e <= |s| && AllDigits(s[i..e]) && (e < |s| ==> !IsDigit(s[e]))
    decreases |s| - i
  {
    if i < |s| && IsDigit(s[i]) then
      var e := DigitsEnd(s, i + 1);
      assert s[i..e] == [s[i]] + s[i + 1..e];
      e
    else i
  }

  predicate LabelChar(c: char) {
    IsDigit(c) || 'A' <= c <= 'Z' || 'a' <= c <= 'z' || c == '.' || c == '-'
  }

  predicate PreRelease(s: string) {
    s == "" || (|s| >= 2 && s[0] == '-' && forall i :: 1 <= i < |s| ==> LabelChar(s[i]))
  }

  datatype Core = Core(major: string, minor: string, patch: string)

  /** The numeric core of `v`, when `v` matches the pattern. */
  function Parse(v: string): (r: Option<Core>)
    ensures r.Some? ==> AllDigits(r.value.patch) && AllDigits(r.value.major) && AllDigits(r.value.minor)
    ensures r.Some? ==> r.value.major != "" && r.value.minor != "" && r.value.patch != ""
  {
    var a := DigitsEnd(v, 0);
    if a == 0 || a == |v| || v[a] != '.' then None
    else
      var b := DigitsEnd(v, a + 1);
      if b == a + 1 || b == |v| || v[b] != '.' then None
      else
        var c := DigitsEnd(v, b + 1);
        if c == b + 1 || !PreRelease(v[c..]) then None
        else Some(Core(v[..a], v[a + 1..b], v[b + 1..c]))
  }

  function Print(major: string, minor: string, patch: string): string { major + "." + minor + "." + patch }

  function Bump(v: string): Option<string> {
    match Parse(v)
    case None => None
    case Some(core) => Some(Print(core.major, core.minor, Show(Read(core.patch) + 1)))
  }

  lemma {:induction false} DigitsEndIs(s: string, i: nat, e: nat)
    requires i <= e <= |s| && (forall k :: i <= k < e ==> IsDigit(s[k])) && (e < |s| ==> !IsDigit(s[e]))
    ensures DigitsEnd(s, i) == e
    decreases e - i
  {
    if i < e { DigitsEndIs(s, i + 1, e); }
  }

  lemma DigitsEndFound(s: string, x: string, d: string, y: string)
    requires s == x + d + y && AllDigits(d) && (y == "" || !IsDigit(y[0]))
    ensures DigitsEnd(s, |x|) == |x| + |d|
  {
    var e := |x| + |d|;
    forall k | |x| <= k < e ensures IsDigit(s[k]) { assert s[k] == d[k - |x|]; }
    if e < |s| { assert s[e] == y[0]; }
    DigitsEndIs(s, |x|, e);
  }

  lemma ParseAt(v: string, a: nat, b: nat, c: nat)
    requires 0 < a < |v| && DigitsEnd(v, 0) == a && v[a] == '.'
    requires a + 1 < b < |v| && DigitsEnd(v, a + 1) == b && v[b] == '.'
    requires b + 1 < c <= |v| && DigitsEnd(v, b + 1) == c && PreRelease(v[c..])
    ensures Parse(v) == Some(Core(v[..a], v[a + 1..b], v[b + 1..c]))
  {
  }

  lemma MajorEnd(v: string, major: string, minor: string, patch: string)
    requires v == Print(major, minor, patch) && AllDigits(major)
    ensures DigitsEnd(v, 0) == |major|
  {
    var rest := "." + minor + "." + patch;
    assert v == "" + major + rest;
    DigitsEndFound(v, "", major, rest);
  }

  lemma MinorEnd(v: string, major: string, minor: string, patch: string)
    requires v == Print(major, minor, patch) && AllDigits(minor)
    ensures DigitsEnd(v, |major| + 1) == |major| + 1 + |minor|
  {
    var before, rest := major + ".", "." + patch;
    assert v == before + minor + rest;
    DigitsEndFound(v, before, minor, rest);
  }

  lemma PatchEnd(v: string, major: string, minor: string, patch: string)
    requires v == Print(major, minor, patch) && AllDigits(patch)
    ensures |major| + 1 + |minor| + 1 <= |v| && DigitsEnd(v, |major| + 1 + |minor| + 1) == |v|
  {
    var before := major + "." + minor + ".";
    assert v == before + patch + "";
    DigitsEndFound(v, before, patch, "");
  }

  lemma PrintedParts(v: string, major: string, minor: string, patch: string)
    requires v == Print(major, minor, patch)
    ensures var a, b := |major|, |major| + 1 + |minor|;
      && |v| == b + 1 + |patch| && v[a] == '.' && v[b] == '.'
      && v[..a] == major && v[a + 1..b] == minor && v[b + 1..] == patch
  {
  }

  lemma ParsePrint(v: string, major: string, minor: string, patch: string)
    requires v == Print(major, minor, patch)
    requires major != "" && minor != "" && patch != "" && AllDigits(major) && AllDigits(minor) && AllDigits(patch)
    ensures Parse(v) == Some(Core(major, minor, patch))
  {
    MajorEnd(v, major, minor, patch);
    MinorEnd(v, major, minor, patch);
    PatchEnd(v, major, minor, patch);
    PrintedParts(v, major, minor, patch);
    ParseAt(v, |major|, |major| + 1 + |minor|, |v|);
    assert v[|major| + 1 + |minor| + 1..|v|] == patch;
  }

  lemma BumpParsed(v: string, core: Core)
    requires Parse(v) == Some(core)
    ensures Bump(v) == Some(Print(core.major, core.minor, Show(Read(core.patch) + 1)))
  {
  }

  lemma BumpPrinted(v: string, core: Core, k: nat)
    requires Parse(v) == Some(core)
    ensures Parse(Print(core.major, core.minor, Show(k))) == Some(Core(core.major, core.minor, Show(k)))
    ensures Bump(Print(core.major, core.minor, Show(k))) == Some(Print(core.major, core.minor, Show(k + 1)))
  {
    var w := Print(core.major, core.minor, Show(k));
    ParsePrint(w, core.major, core.minor, Show(k));
    BumpParsed(w, Core(core.major, core.minor, Show(k)));
    ReadShow(k);
  }

  /** `n` applications of `f`, as long as it gives a result. */
  function Repeated(f: string -> Option<string>, v: string, n: nat): Option<string> {
    if n == 0 then Some(v)
    else
      match Repeated(f, v, n - 1)
      case None => None
      case Some(w) => f(w)
  }

  /** `f` leads from `v` through `name(1)`, `name(2)`, and so on. */
  ghost predicate Chain(f: string -> Option<string>, v: string, name: nat -> string) {
    f(v) == Some(name(1)) && forall k :: k >= 1 ==> f(name(k)) == Some(name(k + 1))
  }

  lemma {:induction false} RepeatedIs(f: string -> Option<string>, v: string, name: nat -> string, n: nat)
    requires Chain(f, v, name) && n >= 1
    ensures Repeated(f, v, n) == Some(name(n))
  {
    if n == 1 {
      assert Repeated(f, v, 0) == Some(v);
    } else {
      RepeatedIs(f, v, name, n - 1);
    }
  }

  lemma {:induction false} RepeatedStuck(f: string -> Option<string>, v: string, n: nat)
    requires f(v) == None && n >= 1
    ensures Repeated(f, v, n) == None
  {
    if n == 1 {
      assert Repeated(f, v, 0) == Some(v);
    } else {
      RepeatedStuck(f, v, n - 1);
    }
  }

  function Bumper(): string -> Option<string> { (v: string) => Bump(v) }

  /** `n` bumps of `v`. */
  function Bumped(v: string, n: nat): Option<string> { Repeated(Bumper(), v, n) }

  function NthBump(core: Core): nat -> string
    requires AllDigits(core.patch)
  {
    (k: nat) => Print(core.major, core.minor, Show(Read(core.patch) + k))
  }

  lemma BumpsChain(v: string, core: Core)
    requires Parse(v) == Some(core)
    ensures Chain(Bumper(), v, NthBump(core))
  {
    BumpParsed(v, core);
    forall k: nat | k >= 1 ensures Bumper()(NthBump(core)(k)) == Some(NthBump(core)(k + 1)) {
      BumpPrinted(v, core, Read(core.patch) + k);
    }
  }

  /** A semantic version can be bumped any number of times, and the patch counts the bumps. */
  lemma BumpedSemantic(v: string, core: Core, n: nat)
    requires Parse(v) == Some(core) && n >= 1
    ensures Bumped(v, n) == Some(Print(core.major, core.minor, Show(Read(core.patch) + n)))
  {
    BumpsChain(v, core);
    RepeatedIs(Bumper(), v, NthBump(core), n);
  }

  /** Anything else cannot be bumped at all. */
  lemma BumpedForeign(v: string, n: nat)
    requires Parse(v) == None && n >= 1
    ensures Bumped(v, n) == None
  {
    RepeatedStuck(Bumper(), v, n);
  }

  lemma PrintInjective(major: string, minor: string, patch: string, other: string)
    requires Print(major, minor, patch) == Print(major, minor, other)
    ensures patch == other
  {
    var k := |major| + 1 + |minor| + 1;
    assert Print(major, minor, patch)[k..] == patch && Print(major, minor, other)[k..] == other;
  }

  lemma PrintedDiffer(v: string, core: Core, j: nat, k: nat)
    requires Parse(v) == Some(core) && j != k
    ensures Print(core.major, core.minor, Show(j)) != Print(core.major, core.minor, Show(k))
    ensures k != Read(core.patch) ==> v != Print(core.major, core.minor, Show(k))
  {
    if Print(core.major, core.minor, Show(j)) == Print(core.major, core.minor, Show(k)) {
      PrintInjective(core.major, core.minor, Show(j), Show(k));
      ShowInjective(j, k);
    }
    BumpPrinted(v, core, k);
    ReadShow(k);
  }

  /** No version comes back: every bump strictly increases the patch. */
  lemma BumpedDistinct(v: string, m: nat, n: nat)
    requires m < n && Bumped(v, n).Some?
    ensures Bumped(v, m).Some? && Bumped(v, m) != Bumped(v, n)
  {
    if Parse(v) == None {
      BumpedForeign(v, n);
    } else {
      var core := Parse(v).value;
      var p := Read(core.patch);
      BumpedSemantic(v, core, n);
      PrintedDiffer(v, core, p + m, p + n);
      if m > 0 { BumpedSemantic(v, core, m); }
    }
  }

  // ---------------------------------------------------------------------------
  // What is a semantic version
  // ---------------------------------------------------------------------------

  /** What may follow the three numbers: nothing, or a hyphen and a label. */
  predicate IsSuffix(s: string) {
    s == "" || (|s| > 1 && s[0] == '-' && forall i :: 1 <= i < |s| ==>
      'a' <= s[i] <= 'z' || 'A' <= s[i] <= 'Z' || '0' <= s[i] <= '9' || s[i] == '.' || s[i] == '-')
  }

  predicate IsNumber(s: string) { s != "" && forall i :: 0 <= i < |s| ==> '0' <= s[i] <= '9' }

  /** The parts of a text, their ends being at `m`, `n` and `k`. */
  ghost predicate FormedAt(v: string, a: string, b: string, c: string, suffix: string, m: nat, n: nat, k: nat) {
    && m < n < k <= |v| && v[m] == '.' && v[n] == '.'
    && v[..m] == a && v[m + 1..n] == b && v[n + 1..k] == c && v[k..] == suffix
  }

  lemma FormedParts(v: string, a: string, b: string, c: string, suffix: string) returns (m: nat, n: nat, k: nat)
    requires v == a + "." + b + "." + c + suffix
    ensures FormedAt(v, a, b, c, suffix, m, n, k)
  {
    m, n := |a|, |a| + 1 + |b|;
    k := n + 1 + |c|;
  }

  lemma NumberIff(s: string)
    ensures IsNumber(s) <==> s != "" && AllDigits(s)
  {
  }

  lemma SuffixIff(s: string)
    ensures IsSuffix(s) <==> PreRelease(s)
  {
  }

  lemma PartEnds(v: string, i: nat, e: nat)
    requires i <= e <= |v| && AllDigits(v[i..e]) && (e < |v| ==> !IsDigit(v[e]))
    ensures DigitsEnd(v, i) == e
  {
    forall k | i <= k < e ensures IsDigit(v[k]) { assert v[k] == v[i..e][k - i]; }
    DigitsEndIs(v, i, e);
  }

  lemma SuffixEnds(v: string, k: nat)
    requires k <= |v| && PreRelease(v[k..])
    ensures k < |v| ==> !IsDigit(v[k])
  {
    if k < |v| { assert v[k..][0] == v[k]; }
  }

  lemma FormedParses(v: string, a: string, b: string, c: string, suffix: string, m: nat, n: nat, k: nat)
    requires FormedAt(v, a, b, c, suffix, m, n, k)
    requires IsNumber(a) && IsNumber(b) && IsNumber(c) && IsSuffix(suffix)
    ensures Parse(v) == Some(Core(a, b, c))
  {
    NumberIff(a);
    NumberIff(b);
    NumberIff(c);
    SuffixIff(suffix);
    assert v[0..m] == v[..m];
    SuffixEnds(v, k);
    PartEnds(v, 0, m);
    PartEnds(v, m + 1, n);
    PartEnds(v, n + 1, k);
    ParseAt(v, m, n, k);
  }

  /** Three numbers separated by dots and perhaps a label, and nothing else, is a semantic version. */
  lemma ParsesIff(v: string, a: string, b: string, c: string)
    ensures Parse(v) == Some(Core(a, b, c)) <==>
      IsNumber(a) && IsNumber(b) && IsNumber(c) &&
      exists suffix :: IsSuffix(suffix) && v == a + "." + b + "." + c + suffix
  {
    if Parse(v) == Some(Core(a, b, c)) {
      var m := DigitsEnd(v, 0);
      var n := DigitsEnd(v, m + 1);
      var k := DigitsEnd(v, n + 1);
      NumberIff(a);
      NumberIff(b);
      NumberIff(c);
      SuffixIff(v[k..]);
      assert v == v[..m] + "." + v[m + 1..n] + "." + v[n + 1..k] + v[k..];
    }
    if IsNumber(a) && IsNumber(b) && IsNumber(c) {
      forall suffix | IsSuffix(suffix) && v == a + "." + b + "." + c + suffix ensures Parse(v) == Some(Core(a, b, c)) {
        var m, n, k := FormedParts(v, a, b, c, suffix);
        FormedParses(v, a, b, c, suffix, m, n, k);
      }
    }
  }
}
