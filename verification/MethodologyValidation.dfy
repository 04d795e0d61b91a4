/**
 The seal-time validator of methodology requirements (methodology_requirement_validation.py), and
 how far what it accepts is satisfiable by some base configuration.
 */
module MethodologyValidation {
  import opened Wrappers
  import opened MethodologyRepair
  import opened MethodologyConvergence
  import Text

  /** EXPERIMENT_DIMENSIONS_ROOT. */
  const ROOT := "experiment_dimensions"

  /**
   The settings of one validation: the permitted root (`ROOT` in the program), whether a comparison
   must state its scope, and `Path(path).suffix != ''`.
   */
  datatype Rules = Rules(root: string, requireScope: bool, hasSuffix: string -> bool)

  /** The kinds of error, without their wording. */
  datatype Issue =
    | EmptyId
    | DuplicateId
    | EmptyDescription
    | FilePath
    | NotDotted
    | EmptySegment
    | ForeignRoot
    | RootItself
    | BoundsCrossed
    | ScopeMissing
    | TooFewCompared
    | DecisionScope
    | DecisionCount
    | SeveralAcross
    | Overlap(across: nat, other: nat)

  function PathIssues(r: Requirement, rules: Rules): seq<Issue> {
    var path := r.configPath;
    var segments := Segments(r);
    if '/' in path && rules.hasSuffix(path) then [FilePath]
    else if '/' in path || '\\' in path || (path != "" && (path[0] == '.' || path[|path| - 1] == '.')) then [NotDotted]
    else if exists i :: 0 <= i < |segments| && Text.Blank(segments[i]) then [EmptySegment]
    else if segments[0] != rules.root then [ForeignRoot]
    else if |segments| < 2 then [RootItself]
    else []
  }

  function ModeIssues(r: Requirement, rules: Rules): seq<Issue> {
    (if Fits(r.minimum, r.maximum) then [] else [BoundsCrossed]) +
    if r.mode == Comparison then
      (if rules.requireScope && !r.explicitScope then [ScopeMissing] else []) +
      (if r.minimum < 2 then [TooFewCompared] else [])
    else
      (if r.explicitScope then [DecisionScope] else []) +
      (if r.minimum != 1 then [DecisionCount] else [])
  }

  function IdentityIssues(r: Requirement, seen: set<string>): seq<Issue> {
    (if Text.Blank(r.id) then [EmptyId] else if r.id in seen then [DuplicateId] else []) +
    (if Text.Blank(r.description) then [EmptyDescription] else [])
  }

  /** The requirement identifiers noted after `rs`: the blank ones are not. */
  function SeenIds(rs: seq<Requirement>): set<string> {
    set i | 0 <= i < |rs| && !Text.Blank(rs[i].id) :: rs[i].id
  }

  /** _dotted_paths_overlap: compared segment by segment, the shorter path a prefix of the longer. */
  predicate PathsOverlap(first: seq<string>, second: seq<string>)
    ensures PathsOverlap(first, second) <==> Comparable(first, second)
  {
    var (shorter, longer) := if |first| > |second| then (second, first) else (first, second);
    longer[..|shorter|] == shorter
  }

  /** The requirement passes every check that looks at it alone. */
  predicate WellDeclared(r: Requirement, rules: Rules) {
    && !Text.Blank(r.id) && !Text.Blank(r.description)
    && PathIssues(r, rules) == []
    && ModeIssues(r, rules) == []
  }

  /** What acceptance means for the list. */
  ghost predicate Accepted(rs: seq<Requirement>, rules: Rules) {
    && (forall i :: 0 <= i < |rs| ==> WellDeclared(rs[i], rules))
    && (forall i, j :: 0 <= i < j < |rs| ==> rs[i].id != rs[j].id)
    && (forall i, j :: 0 <= i < j < |rs| ==> !(Across(rs[i]) && Across(rs[j])))
    && (forall i, j :: 0 <= i < |rs| && 0 <= j < |rs| ==> !Overlapping(rs, i, j))
  }

  /** An across_jobs comparison and another comparison on overlapping paths. */
  ghost predicate Overlapping(rs: seq<Requirement>, i: int, j: int)
    requires 0 <= i < |rs| && 0 <= j < |rs|
  {
    i != j && Across(rs[i]) && rs[j].mode == Comparison && Comparable(Segments(rs[i]), Segments(rs[j]))
  }

  method OverlapIssues(rs: seq<Requirement>) returns (errors: seq<Issue>)
    ensures forall i: nat, j: nat :: Overlap(i, j) in errors <==> i < |rs| && j < |rs| && Overlapping(rs, i, j)
    ensures forall e :: e in errors ==> e.Overlap?
  {
    errors := [];
    for i := 0 to |rs|
      invariant forall e :: e in errors ==> e.Overlap?
      invariant forall k: nat, j: nat :: Overlap(k, j) in errors <==> k < i && j < |rs| && Overlapping(rs, k, j)
    {
      if Across(rs[i]) {
        for j := 0 to |rs|
          invariant forall e :: e in errors ==> e.Overlap?
          invariant forall k: nat, l: nat :: Overlap(k, l) in errors <==>
            ((k < i && l < |rs|) || (k == i && l < j)) && Overlapping(rs, k, l)
        {
          if rs[j].mode == Comparison && j != i && PathsOverlap(Segments(rs[i]), Segments(rs[j])) {
            errors := errors + [Overlap(i, j)];
          }
        }
      }
    }
  }

  method AcrossCountIssues(rs: seq<Requirement>) returns (errors: seq<Issue>)
    ensures errors == [] || errors == [SeveralAcross]
    ensures errors == [] <==> forall i, j :: 0 <= i < j < |rs| ==> !(Across(rs[i]) && Across(rs[j]))
  {
    var across: seq<nat> := [];
    for i := 0 to |rs|
      invariant forall k :: 0 <= k < |across| ==> across[k] < i && Across(rs[across[k]])
      invariant forall k, l :: 0 <= k < l < |across| ==> across[k] != across[l]
      invariant forall k: nat :: k < i && Across(rs[k]) ==> k in across
    {
      if Across(rs[i]) {
        across := across + [i];
      }
    }
    if |across| > 1 {
      assert across[0] != across[1] && Across(rs[across[0]]) && Across(rs[across[1]]);
      return [SeveralAcross];
    }
    return [];
  }

  /** The list is accepted exactly when no error is found. */
  method ValidateRequirements(rs: seq<Requirement>, rules: Rules)
    returns (errors: seq<Issue>)
    ensures errors == [] <==> Accepted(rs, rules)
  {
    errors := [];
    var seen: set<string> := {};
    for i := 0 to |rs|
      invariant seen == SeenIds(rs[..i])
      invariant errors == [] <==> DeclaredSoFar(rs, i, rules)
    {
      errors := errors + IdentityIssues(rs[i], seen) + PathIssues(rs[i], rules) + ModeIssues(rs[i], rules);
      DeclaredNext(rs, i, rules);
      SeenNext(rs, i);
      if !Text.Blank(rs[i].id) {
        seen := seen + {rs[i].id};
      }
    }
    var counted := AcrossCountIssues(rs);
    var overlaps := OverlapIssues(rs);
    if overlaps != [] { assert overlaps[0] in overlaps && overlaps[0].Overlap?; }
    ghost var declared := errors == [];
    errors := errors + counted + overlaps;
    assert errors == [] <==> declared && counted == [] && overlaps == [];
    assert overlaps == [] <==> forall i: nat, j: nat :: i < |rs| && j < |rs| ==> !Overlapping(rs, i, j) by {
      if overlaps != [] {
        var e := overlaps[0];
        assert Overlap(e.across, e.other) in overlaps;
      } else {
        forall i: nat, j: nat | i < |rs| && j < |rs| ensures !Overlapping(rs, i, j) {
          assert Overlap(i, j) !in overlaps;
        }
      }
    }
  }

  ghost predicate DeclaredSoFar(rs: seq<Requirement>, n: nat, rules: Rules)
    requires n <= |rs|
  {
    && (forall i :: 0 <= i < n ==> WellDeclared(rs[i], rules))
    && (forall i, j :: 0 <= i < j < n ==> rs[i].id != rs[j].id)
  }

  lemma SeenNext(rs: seq<Requirement>, n: nat)
    requires n < |rs|
    ensures SeenIds(rs[..n + 1]) == if Text.Blank(rs[n].id) then SeenIds(rs[..n]) else SeenIds(rs[..n]) + {rs[n].id}
  {
    var shorter, longer := rs[..n], rs[..n + 1];
    forall x ensures x in SeenIds(longer) <==> x in SeenIds(shorter) || (x == rs[n].id && !Text.Blank(x)) {
      if x in SeenIds(shorter) {
        var i :| 0 <= i < n && !Text.Blank(shorter[i].id) && shorter[i].id == x;
        assert longer[i].id == x;
      }
      if x == rs[n].id { assert longer[n].id == x; }
    }
  }

  lemma SeenIff(rs: seq<Requirement>, n: nat, x: string)
    requires n <= |rs| && forall i :: 0 <= i < n ==> !Text.Blank(rs[i].id)
    ensures x in SeenIds(rs[..n]) <==> exists i :: 0 <= i < n && rs[i].id == x
  {
    var shorter := rs[..n];
    if i :| 0 <= i < n && rs[i].id == x {
      assert shorter[i].id == x;
    }
  }

  lemma DeclaredNext(rs: seq<Requirement>, n: nat, rules: Rules)
    requires n < |rs|
    ensures DeclaredSoFar(rs, n + 1, rules) <==>
      && DeclaredSoFar(rs, n, rules)
      && IdentityIssues(rs[n], SeenIds(rs[..n])) == [] && PathIssues(rs[n], rules) == []
      && ModeIssues(rs[n], rules) == []
  {
    if DeclaredSoFar(rs, n, rules) {
      SeenIff(rs, n, rs[n].id);
      assert IdentityIssues(rs[n], SeenIds(rs[..n])) == [] <==>
        !Text.Blank(rs[n].id) && !Text.Blank(rs[n].description) && forall i :: 0 <= i < n ==> rs[i].id != rs[n].id;
    }
  }

  /** No error is found in a path exactly if it is dotted, beneath the root, and without blank components. */
  lemma PathOkIff(r: Requirement, rules: Rules)
    ensures PathIssues(r, rules) == [] <==>
      var path, segments := r.configPath, Text.Split(r.configPath, '.');
      && '/' !in path && '\\' !in path
      && (path != "" ==> path[0] != '.' && path[|path| - 1] != '.')
      && (forall i :: 0 <= i < |segments| ==> !Text.Blank(segments[i]))
      && segments[0] == rules.root && |segments| >= 2
  {
  }

  /** The counts and the scope of a requirement are as its mode demands. */
  lemma ModeOkIff(r: Requirement, rules: Rules)
    ensures ModeIssues(r, rules) == [] <==>
      && (r.maximum.Some? ==> r.minimum <= r.maximum.value)
      && match r.mode
         case Comparison => r.minimum >= 2 && (rules.requireScope ==> r.explicitScope)
         case Decision => r.minimum == 1 && !r.explicitScope
  {
  }

  // ---------------------------------------------------------------------------
  // What acceptance guarantees
  // ---------------------------------------------------------------------------

  /** The pairs the validator leaves alone are nested nowhere. */
  ghost predicate NotNested(rs: seq<Requirement>) {
    forall i, j :: 0 <= i < |rs| && 0 <= j < |rs| ==> !(Segments(rs[i]) < Segments(rs[j]))
  }

  /** Value-list requirements on one path can share a count. */
  ghost predicate BoundsAgree(rs: seq<Requirement>) {
    forall i, j ::
      0 <= i < |rs| && 0 <= j < |rs| && Segments(rs[i]) == Segments(rs[j]) && !Across(rs[i]) && !Across(rs[j]) ==>
        Fits(rs[i].minimum, rs[j].maximum)
  }

  lemma DeclaredMode(r: Requirement, rules: Rules)
    requires WellDeclared(r, rules)
    ensures Fits(r.minimum, r.maximum)
    ensures r.mode == Comparison ==> r.minimum >= 2
    ensures r.mode == Decision ==> r.minimum == 1
  {
  }

  /**
   An accepted list is satisfiable exactly when no required path lies beneath another and equal
   paths agree on their bounds. The overlap guard asks this only of pairs of comparisons of which
   one is across_jobs.
   */
  lemma AcceptedSatisfiableIff(rs: seq<Requirement>, rules: Rules, render: Render)
    requires Accepted(rs, rules)
    ensures (exists d :: AllMet(d, rs, render)) <==> NotNested(rs) && BoundsAgree(rs)
    ensures forall d :: NotNested(rs) && BoundsAgree(rs) && AllSuit(d, rs, render) ==>
                          AllMet(Repaired(d, rs, render), rs, render)
  {
    if NotNested(rs) && BoundsAgree(rs) {
      forall i, j | 0 <= i < |rs| && 0 <= j < |rs| ensures Agree(rs[i], rs[j]) {
        DeclaredMode(rs[j], rules);
        assert !Overlapping(rs, i, j);
      }
      forall d | AllSuit(d, rs, render) ensures AllMet(Repaired(d, rs, render), rs, render) {
        RepairMeetsIff(d, rs, render);
      }
    }
    if Compatible(rs) {
      forall i, j | 0 <= i < |rs| && 0 <= j < |rs|
        ensures !(Segments(rs[i]) < Segments(rs[j]))
        ensures Segments(rs[i]) == Segments(rs[j]) && !Across(rs[i]) && !Across(rs[j]) ==>
          Fits(rs[i].minimum, rs[j].maximum)
      {
        assert Agree(rs[i], rs[j]);
      }
    }
    SatisfiableIff(rs, render);
  }

  // ---------------------------------------------------------------------------
  // The gap in the guard
  // ---------------------------------------------------------------------------

  /** A within_job comparison of at least two values at `path`. */
  function WithinJobAt(id: string, path: string): Requirement {
    Requirement(id, path, Comparison, WithinJob, true, 2, None, "d")
  }

  /** Names that make a path segment. */
  predicate Plain(s: string) {
    s != "" && '.' !in s && '/' !in s && '\\' !in s && !Text.IsSpace(s[0])
  }

  lemma RootIsPlain()
    ensures Plain(ROOT)
  {
    assert ROOT[0] == 'e' && !Text.IsSpace(ROOT[0]);
  }

  lemma PlainIsOneSegment(s: string)
    requires Plain(s)
    ensures !Text.Blank(s) && Text.Split(s, '.') == [s] && s[0] != '.' && s[|s| - 1] != '.'
  {
    Text.SplitFirst(s, '.', "");
  }

  /** No directory separator, and no dot at either end. */
  predicate Dotted(path: string) {
    path != "" && '/' !in path && '\\' !in path && path[0] != '.' && path[|path| - 1] != '.'
  }

  lemma JoinAvoids(s: string, path: string, c: char)
    requires c !in s && c !in path && c != '.'
    ensures c !in s + "." + path
  {
  }

  lemma DottedJoin(s: string, path: string)
    requires Plain(s) && Dotted(path)
    ensures Dotted(s + "." + path)
  {
    JoinAvoids(s, path, '/');
    JoinAvoids(s, path, '\\');
    var whole := s + "." + path;
    assert whole[0] == s[0] && whole[|whole| - 1] == path[|path| - 1];
  }

  lemma PathAccepted(r: Requirement, rules: Rules)
    requires Dotted(r.configPath) && |Segments(r)| >= 2 && Segments(r)[0] == rules.root
    requires forall i :: 0 <= i < |Segments(r)| ==> !Text.Blank(Segments(r)[i])
    ensures PathIssues(r, rules) == []
  {
  }

  lemma BeneathRootAccepted(r: Requirement, path: string, rules: Rules)
    requires Plain(rules.root) && Dotted(path) && r.configPath == rules.root + "." + path
    requires forall i :: 0 <= i < |Text.Split(path, '.')| ==> !Text.Blank(Text.Split(path, '.')[i])
    ensures Segments(r) == [rules.root] + Text.Split(path, '.') && PathIssues(r, rules) == []
  {
    Text.SplitFirst(rules.root, '.', path);
    DottedJoin(rules.root, path);
    PathAccepted(r, rules);
  }

  lemma TwoSegmentsAccepted(r: Requirement, s: string, rules: Rules)
    requires Plain(rules.root) && Plain(s) && r.configPath == rules.root + "." + s
    ensures Segments(r) == [rules.root, s] && PathIssues(r, rules) == []
  {
    PlainIsOneSegment(s);
    BeneathRootAccepted(r, s, rules);
  }

  lemma ThreeSegmentsAccepted(r: Requirement, s: string, t: string, rules: Rules)
    requires Plain(rules.root) && Plain(s) && Plain(t) && r.configPath == rules.root + "." + (s + "." + t)
    ensures Segments(r) == [rules.root, s, t] && PathIssues(r, rules) == []
  {
    PlainIsOneSegment(t);
    PlainIsOneSegment(s);
    DottedJoin(s, t);
    Text.SplitFirst(s, '.', t);
    BeneathRootAccepted(r, s + "." + t, rules);
  }

  /**
   Two within_job comparisons at `root.s` and `root.s.t` are accepted, no configuration satisfies
   both, and every repair pass over every file rewrites it.
   */
  lemma GuardMissesNesting(s: string, t: string, rules: Rules, render: Render)
    requires Plain(rules.root) && Plain(s) && Plain(t)
    ensures var rs := [WithinJobAt("a", rules.root + "." + s), WithinJobAt("b", rules.root + "." + (s + "." + t))];
      && Accepted(rs, rules)
      && forall d :: !AllMet(d, rs, render) && PassChanges(d, rs, render)
  {
    var a, b := WithinJobAt("a", rules.root + "." + s), WithinJobAt("b", rules.root + "." + (s + "." + t));
    var rs := [a, b];
    TwoSegmentsAccepted(a, s, rules);
    ThreeSegmentsAccepted(b, s, t, rules);
    NestedPairAccepted(a, b, rules);
    forall d ensures !AllMet(d, rs, render) && PassChanges(d, rs, render) {
      NestedPairUnmet(d, a, b, render);
    }
  }

  /** So it is with the program's own root. */
  lemma ProgramGuardMissesNesting(s: string, t: string, rules: Rules, render: Render)
    requires rules.root == ROOT && Plain(s) && Plain(t)
    ensures var rs := [WithinJobAt("a", ROOT + "." + s), WithinJobAt("b", ROOT + "." + (s + "." + t))];
      && Accepted(rs, rules)
      && forall d :: !AllMet(d, rs, render) && PassChanges(d, rs, render)
  {
    RootIsPlain();
    GuardMissesNesting(s, t, rules, render);
  }

  lemma WithinJobDeclared(r: Requirement, rules: Rules)
    requires r == WithinJobAt(r.id, r.configPath) && !Text.Blank(r.id) && PathIssues(r, rules) == []
    ensures WellDeclared(r, rules)
  {
    assert !Text.IsSpace("d"[0]);
    assert ModeIssues(r, rules) == [];
  }

  lemma NestedPairAccepted(a: Requirement, b: Requirement, rules: Rules)
    requires a == WithinJobAt("a", a.configPath) && b == WithinJobAt("b", b.configPath)
    requires PathIssues(a, rules) == [] && PathIssues(b, rules) == []
    ensures Accepted([a, b], rules)
  {
    assert !Text.IsSpace("a"[0]) && !Text.IsSpace("b"[0]);
    WithinJobDeclared(a, rules);
    WithinJobDeclared(b, rules);
    assert a.id[0] != b.id[0];
  }

  lemma NestedPairUnmet(d: Settings, a: Requirement, b: Requirement, render: Render)
    requires Segments(a) < Segments(b) && a.minimum >= 1
    ensures !AllMet(d, [a, b], render) && PassChanges(d, [a, b], render)
  {
    var rs := [a, b];
    NestedNeverSettles(d, rs, 0, 1, render);
    if AllMet(d, rs, render) {
      MetTogetherAgree(d, rs[0], rs[1], render);
    }
  }
}
