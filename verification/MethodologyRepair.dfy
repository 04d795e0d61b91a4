/**
 Deterministic repair of contract-required methodology settings (methodology_config.py) and the
 preflight test of the repaired file (preflight.py, _config_value and the requirement loop).

 The base configuration is a tree of mappings. A requirement names a dotted path; the repair makes
 every required path carry enough distinct values, or exactly one scalar for an across_jobs
 comparison.
 */
module MethodologyRepair {
  import opened Wrappers
  import opened Decimal
  import opened Lists
  import Text

  /** A parsed YAML value. `Number` covers int, float and bool; `Other` covers timestamps and binary. */
  datatype Value =
    | Null
    | Str(text: string)
    | Number(text: string)
    | Other(text: string)
    | List(items: seq<Value>)
    | Dict(entries: Settings)

  type Settings = map<string, Value>

  /** `str(list)` and `str(dict)`: any function of the value. */
  type Render = Value -> string

  datatype Mode = Comparison | Decision

  datatype Scope = WithinJob | AcrossJobs

  datatype Requirement = Requirement(id: string, configPath: string, mode: Mode, scope: Scope, explicitScope: bool,
                                     minimum: nat, maximum: Option<nat>, description: string)

  function Segments(r: Requirement): (p: seq<string>)
    ensures p != []
  {
    Text.Split(r.configPath, '.')
  }

  predicate Across(r: Requirement) { r.mode == Comparison && r.scope == AcrossJobs }

  // ---------------------------------------------------------------------------
  // Paths
  // ---------------------------------------------------------------------------

  /** The value at a path, every proper prefix of which is a mapping. */
  function Get(d: Settings, path: seq<string>): Option<Value>
    requires path != []
    decreases |path|
  {
    if path[0] !in d then None
    else if |path| == 1 then Some(d[path[0]])
    else if d[path[0]].Dict? then Get(d[path[0]].entries, path[1..])
    else None
  }

  /** `node.get(leaf)` after the walk: an absent leaf reads as null. */
  function Current(d: Settings, path: seq<string>): Value
    requires path != []
  {
    match Get(d, path)
    case Some(v) => v
    case None => Null
  }

  function Child(d: Settings, key: string): Settings {
    if key in d && d[key].Dict? then d[key].entries else map[]
  }

  /** The walk and the assignment: whatever is not a mapping on the way is replaced by an empty one. */
  function Put(d: Settings, path: seq<string>, v: Value): Settings
    requires path != []
    decreases |path|
  {
    if |path| == 1 then d[path[0] := v]
    else d[path[0] := Dict(Put(Child(d, path[0]), path[1..], v))]
  }

  predicate Comparable(p: seq<string>, q: seq<string>) { p <= q || q <= p }

  lemma {:induction false} GetPut(d: Settings, path: seq<string>, v: Value)
    requires path != []
    ensures Get(Put(d, path, v), path) == Some(v)
    decreases |path|
  {
    if |path| > 1 { GetPut(Child(d, path[0]), path[1..], v); }
  }

  lemma TailComparable(p: seq<string>, q: seq<string>)
    requires p != [] && q != []
    ensures p[0] == q[0] ==> Comparable(p, q) == Comparable(p[1..], q[1..])
    ensures p[0] == q[0] && !Comparable(p, q) ==> |p| > 1 && |q| > 1
  {
    assert p == [p[0]] + p[1..] && q == [q[0]] + q[1..];
  }

  /** A write leaves every incomparable path as it was. */
  lemma {:induction false} GetPutElsewhere(d: Settings, path: seq<string>, v: Value, q: seq<string>)
    requires path != [] && q != [] && !Comparable(path, q)
    ensures Get(Put(d, path, v), q) == Get(d, q)
    decreases |path|
  {
    TailComparable(path, q);
    if path[0] == q[0] {
      GetPutElsewhere(Child(d, path[0]), path[1..], v, q[1..]);
      NothingInEmpty(q[1..]);
    }
  }

  lemma NothingInEmpty(q: seq<string>)
    requires q != []
    ensures Get(map[], q) == None
  {
  }

  /** Writing back the value already there changes nothing. */
  lemma {:induction false} PutSame(d: Settings, path: seq<string>, v: Value)
    requires path != [] && Get(d, path) == Some(v)
    ensures Put(d, path, v) == d
    decreases |path|
  {
    if |path| > 1 { PutSame(d[path[0]].entries, path[1..], v); }
  }

  /** A value beneath a path makes the value at the path a mapping. */
  lemma {:induction false} AncestorIsDict(d: Settings, p: seq<string>, q: seq<string>)
    requires p != [] && p < q && Get(d, q).Some?
    ensures Get(d, p).Some? && Get(d, p).value.Dict?
    decreases |p|
  {
    assert p[0] == q[0];
    if |p| > 1 {
      assert p[1..] < q[1..];
      AncestorIsDict(d[p[0]].entries, p[1..], q[1..]);
    }
  }

  // ---------------------------------------------------------------------------
  // Placeholders
  // ---------------------------------------------------------------------------

  function Candidate(leaf: string, index: nat): string {
    leaf + "-candidate-" + Show(index)
  }

  lemma CandidateInjective(leaf: string, i: nat, j: nat)
    requires Candidate(leaf, i) == Candidate(leaf, j)
    ensures i == j
  {
    var stem := leaf + "-candidate-";
    assert Candidate(leaf, i)[|stem|..] == Show(i) && Candidate(leaf, j)[|stem|..] == Show(j);
    ShowInjective(i, j);
  }

  /** The first `needed` candidates from `index` on that are not in `taken`. */
  function Placeholders(leaf: string, taken: set<string>, needed: nat, index: nat): (r: seq<string>)
    ensures |r| == needed
    decreases needed + |taken|
  {
    if needed == 0 then []
    else
      var c := Candidate(leaf, index);
      if c in taken then Placeholders(leaf, taken - {c}, needed, index + 1)
      else [c] + Placeholders(leaf, taken, needed - 1, index + 1)
  }

  /** Placeholders are new, and no two are equal. */
  lemma {:induction false} PlaceholdersNew(leaf: string, taken: set<string>, needed: nat, index: nat)
    ensures var r := Placeholders(leaf, taken, needed, index);
      && NoDuplicates(r)
      && forall i :: 0 <= i < |r| ==> r[i] !in taken && exists k: nat :: index <= k && r[i] == Candidate(leaf, k)
    decreases needed + |taken|
  {
    if needed > 0 {
      var c := Candidate(leaf, index);
      var r := Placeholders(leaf, taken, needed, index);
      if c in taken {
        PlaceholdersNew(leaf, taken - {c}, needed, index + 1);
        forall i | 0 <= i < |r| ensures r[i] !in taken && exists k: nat :: index <= k && r[i] == Candidate(leaf, k) {
          var k: nat :| index + 1 <= k && r[i] == Candidate(leaf, k);
          if r[i] == c { CandidateInjective(leaf, index, k); }
        }
      } else {
        var rest := Placeholders(leaf, taken, needed - 1, index + 1);
        PlaceholdersNew(leaf, taken, needed - 1, index + 1);
        forall i | 0 <= i < |rest| ensures rest[i] != c {
          var k: nat :| index + 1 <= k && rest[i] == Candidate(leaf, k);
          if rest[i] == c { CandidateInjective(leaf, index, k); }
        }
        assert r == [c] + rest;
        assert r[0] == Candidate(leaf, index);
      }
    }
  }

  lemma PlaceholdersStep(leaf: string, rest: set<string>, needed: nat, index: nat, taken: set<string>)
    requires forall k: nat :: index <= k ==> (Candidate(leaf, k) in taken <==> Candidate(leaf, k) in rest)
    ensures var c := Candidate(leaf, index);
      forall k: nat :: index + 1 <= k ==> (Candidate(leaf, k) in taken <==> Candidate(leaf, k) in rest - {c})
  {
    var c := Candidate(leaf, index);
    forall k: nat | index + 1 <= k ensures Candidate(leaf, k) in taken <==> Candidate(leaf, k) in rest - {c} {
      if Candidate(leaf, k) == c { CandidateInjective(leaf, k, index); }
    }
  }

  /** `_placeholder_values`: the search skips taken names and always ends. */
  method PlaceholderValues(leaf: string, taken: set<string>, needed: nat) returns (generated: seq<string>)
    ensures generated == Placeholders(leaf, taken, needed, 1)
  {
    generated := [];
    var index := 1;
    ghost var rest := taken;
    while |generated| < needed
      invariant |generated| <= needed && 1 <= index
      invariant forall k: nat :: index <= k ==> (Candidate(leaf, k) in taken <==> Candidate(leaf, k) in rest)
      invariant generated + Placeholders(leaf, rest, needed - |generated|, index) ==
        Placeholders(leaf, taken, needed, 1)
      decreases needed - |generated| + |rest|
    {
      var candidate := Candidate(leaf, index);
      PlaceholdersStep(leaf, rest, needed, index, taken);
      index := index + 1;
      if candidate in taken {
        rest := rest - {candidate};
        continue;
      }
      ghost var after := Placeholders(leaf, rest, needed - |generated| - 1, index);
      assert generated + ([candidate] + after) == (generated + [candidate]) + after;
      generated := generated + [candidate];
    }
  }

  // ---------------------------------------------------------------------------
  // One requirement
  // ---------------------------------------------------------------------------

  function TextOf(v: Value, render: Render): string {
    match v
    case Null => "None"
    case Str(text) => text
    case Number(text) => text
    case Other(text) => text
    case List(_) => render(v)
    case Dict(_) => render(v)
  }

  function Texts(items: seq<Value>, render: Render): set<string> {
    set x | x in items :: TextOf(x, render)
  }

  /** What the repair keeps of the value it finds. */
  function Existing(v: Value): seq<Value> {
    match v
    case Dict(_) => []
    case List(items) => items
    case Null => []
    case _ => [v]
  }

  function Shortfall(v: Value, r: Requirement, render: Render): nat {
    var have := |Texts(Existing(v), render)|;
    if have < r.minimum then r.minimum - have else 0
  }

  function Strings(names: seq<string>): seq<Value> { Map(names, (s: string) => Str(s)) }

  /** The placeholders inserted for `r` where the leaf holds `v`. */
  function Inserted(v: Value, r: Requirement, leaf: string, render: Render): seq<string> {
    if Across(r) then
      if v.Null? || v.Dict? || v == List([]) then [Candidate(leaf, 1)] else []
    else Placeholders(leaf, Texts(Existing(v), render), Shortfall(v, r, render), 1)
  }

  /** What the leaf holds after the repair. */
  function Fixed(v: Value, r: Requirement, leaf: string, render: Render): Value {
    if Across(r) then
      if v.Null? || v.Dict? || v == List([]) then Str(Candidate(leaf, 1))
      else if v.List? then v.items[0]
      else v
    else if Shortfall(v, r, render) == 0 && !v.Dict? then v
    else List(Existing(v) + Strings(Inserted(v, r, leaf, render)))
  }

  function Leaf(path: seq<string>): string
    requires path != []
  {
    path[|path| - 1]
  }

  function Ensured(d: Settings, r: Requirement, render: Render): Settings {
    var path := Segments(r);
    Put(d, path, Fixed(Current(d, path), r, Leaf(path), render))
  }

  /** One pass over the requirements, in order. */
  function Repaired(d: Settings, rs: seq<Requirement>, render: Render): Settings {
    if rs == [] then d
    else Ensured(Repaired(d, rs[..|rs| - 1], render), rs[|rs| - 1], render)
  }

  /** Some requirement of the pass found the configuration short and changed it. */
  ghost predicate PassChanges(d: Settings, rs: seq<Requirement>, render: Render) {
    rs != [] &&
      (PassChanges(d, rs[..|rs| - 1], render) || Repaired(d, rs, render) != Repaired(d, rs[..|rs| - 1], render))
  }

  /** What every requirement inserted last, by its path; a requirement that inserted nothing is not listed. */
  function Reported(d: Settings, rs: seq<Requirement>, render: Render): map<string, seq<string>> {
    if rs == [] then map[]
    else
      var r, before := rs[|rs| - 1], rs[..|rs| - 1];
      var inserted := Inserted(Current(Repaired(d, before, render), Segments(r)), r, Leaf(Segments(r)), render);
      if inserted == [] then Reported(d, before, render)
      else Reported(d, before, render)[r.configPath := inserted]
  }

  /** The file being repaired. */
  class BaseConfig {
    const render: Render
    var config: Settings
    var changed: bool
    var placeholders: map<string, seq<string>>

    /** `created`: there was no file, so the repair starts from nothing and will write one. */
    constructor (found: Option<Settings>, render: Render)
      ensures this.render == render && placeholders == map[]
      ensures changed == found.None? && config == (if found.Some? then found.value else map[])
    {
      this.render := render;
      config := if found.Some? then found.value else map[];
      changed := found.None?;
      placeholders := map[];
    }

    method Repair(rs: seq<Requirement>)
      requires placeholders == map[]
      modifies this
      ensures config == Repaired(old(config), rs, render)
      ensures changed <==> old(changed) || PassChanges(old(config), rs, render)
      ensures placeholders == Reported(old(config), rs, render)
    {
      for i := 0 to |rs|
        invariant Passed(old(config), rs[..i], render, old(changed), config, changed, placeholders)
      {
        ghost var report, was := placeholders, changed;
        var before := config;
        var inserted := EnsureRequirement(rs[i]);
        if inserted != [] || config != before {
          changed := true;
        }
        if inserted != [] {
          placeholders := placeholders[rs[i].configPath := inserted];
        }
        if inserted != [] { InsertionChanges(before, rs[i], render); }
        PassedNext(old(config), rs, i, render, old(changed), before, was, report, inserted);
      }
      assert rs[..|rs|] == rs;
    }

    method EnsureRequirement(r: Requirement) returns (inserted: seq<string>)
      modifies this`config
      ensures config == Ensured(old(config), r, render)
      ensures inserted == Inserted(Current(old(config), Segments(r)), r, Leaf(Segments(r)), render)
    {
      var path := Segments(r);
      var leaf, current := Leaf(path), Current(config, path);
      var value := current;
      inserted := [];
      if Across(r) {
        if current.Null? || current.Dict? || current == List([]) {
          inserted := [Candidate(leaf, 1)];
          value := Str(Candidate(leaf, 1));
        } else if current.List? {
          value := current.items[0];
        }
      } else {
        var existing := Existing(current);
        var distinct := Texts(existing, render);
        var shortfall := if |distinct| < r.minimum then r.minimum - |distinct| else 0;
        if shortfall > 0 || current.Dict? {
          inserted := PlaceholderValues(leaf, distinct, shortfall);
          value := List(existing + Strings(inserted));
        }
      }
      config := Put(config, path, value);
    }
  }

  /** The state of the repair after the requirements `done`. */
  ghost predicate Passed(d: Settings, done: seq<Requirement>, render: Render, created: bool,
      config: Settings, changed: bool, placeholders: map<string, seq<string>>)
  {
    && config == Repaired(d, done, render)
    && (changed <==> created || PassChanges(d, done, render))
    && placeholders == Reported(d, done, render)
  }

  lemma PassedNext(d: Settings, rs: seq<Requirement>, i: nat, render: Render, created: bool,
      config: Settings, changed: bool, placeholders: map<string, seq<string>>, inserted: seq<string>)
    requires i < |rs| && Passed(d, rs[..i], render, created, config, changed, placeholders)
    requires inserted == Inserted(Current(config, Segments(rs[i])), rs[i], Leaf(Segments(rs[i])), render)
    requires inserted != [] ==> Ensured(config, rs[i], render) != config
    ensures var next := Ensured(config, rs[i], render);
      Passed(d, rs[..i + 1], render, created, next, changed || inserted != [] || next != config,
        if inserted == [] then placeholders else placeholders[rs[i].configPath := inserted])
  {
    RepairedSnoc(d, rs[..i], rs[i], render);
    ReportedSnoc(d, rs[..i], rs[i], render);
    assert rs[..i + 1] == rs[..i] + [rs[i]];
  }

  lemma RepairedSnoc(d: Settings, before: seq<Requirement>, r: Requirement, render: Render)
    ensures Repaired(d, before + [r], render) == Ensured(Repaired(d, before, render), r, render)
    ensures PassChanges(d, before + [r], render) <==>
      PassChanges(d, before, render) || Ensured(Repaired(d, before, render), r, render) != Repaired(d, before, render)
  {
    var rs := before + [r];
    assert rs[..|rs| - 1] == before && rs[|rs| - 1] == r;
  }

  lemma ReportedSnoc(d: Settings, before: seq<Requirement>, r: Requirement, render: Render)
    ensures Reported(d, before + [r], render) ==
      var inserted := Inserted(Current(Repaired(d, before, render), Segments(r)), r, Leaf(Segments(r)), render);
      if inserted == [] then Reported(d, before, render) else Reported(d, before, render)[r.configPath := inserted]
  {
    var rs := before + [r];
    assert rs[..|rs| - 1] == before && rs[|rs| - 1] == r;
  }

  /** A requirement for which something was inserted has changed the configuration. */
  lemma InsertionChanges(d: Settings, r: Requirement, render: Render)
    requires Inserted(Current(d, Segments(r)), r, Leaf(Segments(r)), render) != []
    ensures Ensured(d, r, render) != d
  {
    var path := Segments(r);
    var v := Current(d, path);
    var w := Fixed(v, r, Leaf(path), render);
    GetPut(d, path, w);
    assert v != w;
  }
}
