/**
 What the repair of the methodology settings reports (methodology_config.py), and that the file holds
 it: case by case for one requirement, and for a whole pass.
 */
module MethodologyReport {
  import opened Wrappers
  import opened Decimal
  import opened Lists
  import opened MethodologyRepair
  import opened MethodologyConvergence
  import Text

  /** The value found at a path of which nothing, or a wrapper, or an empty list is there. */
  predicate HoldsNothing(v: Value) { v.Null? || v.Dict? || (v.List? && v.items == []) }

  /** The configuration after one requirement, and what was reported. */
  function AfterOne(d: Settings, r: Requirement, render: Render): (Value, seq<string>) {
    var path := Segments(r);
    (Current(Ensured(d, r, render), path), Inserted(Current(d, path), r, Leaf(path), render))
  }

  /** An across_jobs path holds one scalar: the reported one, the first of a list, or the one it held. */
  lemma AcrossHolds(d: Settings, r: Requirement, render: Render)
    requires r.mode == Comparison && r.scope == AcrossJobs
    ensures var v := Current(d, Segments(r)); var (w, inserted) := AfterOne(d, r, render);
      var placeholder := Leaf(Segments(r)) + "-candidate-1";
      && (HoldsNothing(v) ==> w == Str(placeholder) && inserted == [placeholder])
      && (!HoldsNothing(v) ==> w == (if v.List? then v.items[0] else v) && inserted == [])
  {
    var path := Segments(r);
    GetPut(d, path, Fixed(Current(d, path), r, Leaf(path), render));
    ShowOne();
  }

  lemma ShowOne()
    ensures Show(1) == "1"
  {
  }

  /** The values that count: none for a wrapper, the items of a list, else the value itself. */
  function Found(v: Value): seq<Value> {
    if v.Null? || v.Dict? then [] else if v.List? then v.items else [v]
  }

  /** Any other path holds what it held and then the reported names, as many as were missing. */
  lemma ListHolds(d: Settings, r: Requirement, render: Render)
    requires !(r.mode == Comparison && r.scope == AcrossJobs)
    ensures var v := Current(d, Segments(r)); var (w, inserted) := AfterOne(d, r, render);
      var have := |set x | x in Found(v) :: TextOf(x, render)|;
      && |inserted| == (if have < r.minimum then r.minimum - have else 0)
      && (inserted == [] && !v.Dict? ==> w == v)
      && (inserted != [] || v.Dict? ==> w == List(Found(v) + Strings(inserted)))
  {
    var path := Segments(r);
    var v := Current(d, path);
    GetPut(d, path, Fixed(v, r, Leaf(path), render));
    assert Existing(v) == Found(v);
    assert Texts(Existing(v), render) == set x | x in Found(v) :: TextOf(x, render);
  }

  /** The numbers of the placeholders, in order. */
  ghost predicate NumberedBy(names: seq<string>, leaf: string, numbers: seq<nat>) {
    && |names| == |numbers|
    && (forall i :: 0 <= i < |names| ==> names[i] == leaf + "-candidate-" + Show(numbers[i]))
    && forall i, j :: 0 <= i < j < |numbers| ==> numbers[i] < numbers[j]
  }

  /** Every number from `from` up to the last one used is used, or its name was taken. */
  ghost predicate NoneSkipped(numbers: seq<nat>, from: nat, leaf: string, taken: set<string>) {
    && (forall i :: 0 <= i < |numbers| ==> from <= numbers[i] && Candidate(leaf, numbers[i]) !in taken)
    && forall k: nat :: from <= k && (exists i :: 0 <= i < |numbers| && k <= numbers[i]) ==>
        k in numbers || Candidate(leaf, k) in taken
  }

  /** The placeholders are the candidates of least number that are not taken, in order. */
  lemma {:induction false} PlaceholdersFirst(leaf: string, taken: set<string>, needed: nat, from: nat)
    returns (numbers: seq<nat>)
    ensures NumberedBy(Placeholders(leaf, taken, needed, from), leaf, numbers)
    ensures NoneSkipped(numbers, from, leaf, taken)
    decreases needed + |taken|
  {
    var c := Candidate(leaf, from);
    if needed == 0 {
      numbers := [];
    } else if c in taken {
      numbers := PlaceholdersFirst(leaf, taken - {c}, needed, from + 1);
      OneTaken(numbers, from, leaf, taken);
    } else {
      var rest := PlaceholdersFirst(leaf, taken, needed - 1, from + 1);
      numbers := [from] + rest;
      OneUsed(rest, from, leaf, taken);
      OneNumbered(Placeholders(leaf, taken, needed - 1, from + 1), leaf, rest, from);
    }
  }

  lemma OneTaken(numbers: seq<nat>, from: nat, leaf: string, taken: set<string>)
    requires Candidate(leaf, from) in taken && NoneSkipped(numbers, from + 1, leaf, taken - {Candidate(leaf, from)})
    ensures NoneSkipped(numbers, from, leaf, taken)
  {
    forall i | 0 <= i < |numbers| ensures Candidate(leaf, numbers[i]) !in taken {
      if Candidate(leaf, numbers[i]) == Candidate(leaf, from) { CandidateInjective(leaf, numbers[i], from); }
    }
  }

  lemma OneUsed(rest: seq<nat>, from: nat, leaf: string, taken: set<string>)
    requires Candidate(leaf, from) !in taken && NoneSkipped(rest, from + 1, leaf, taken)
    ensures NoneSkipped([from] + rest, from, leaf, taken)
  {
    var numbers := [from] + rest;
    forall k: nat | from <= k && exists i :: 0 <= i < |numbers| && k <= numbers[i]
      ensures k in numbers || Candidate(leaf, k) in taken
    {
      if k != from {
        var i :| 0 <= i < |numbers| && k <= numbers[i];
        assert rest[i - 1] == numbers[i];
        if k in rest { assert k in numbers; }
      } else {
        assert numbers[0] == k;
      }
    }
  }

  lemma OneNumbered(names: seq<string>, leaf: string, rest: seq<nat>, from: nat)
    requires NumberedBy(names, leaf, rest) && forall i :: 0 <= i < |rest| ==> from < rest[i]
    ensures NumberedBy([Candidate(leaf, from)] + names, leaf, [from] + rest)
  {
  }

  /** Every reported name is in the value at the path. */
  ghost predicate HoldsNames(v: Value, names: seq<string>) { forall n :: n in names ==> Str(n) in Values(v) }

  lemma InsertedHeld(d: Settings, r: Requirement, render: Render)
    ensures var (w, inserted) := AfterOne(d, r, render); HoldsNames(w, inserted)
  {
    var (w, inserted) := AfterOne(d, r, render);
    if Across(r) {
      AcrossHolds(d, r, render);
    } else {
      ListHolds(d, r, render);
      forall n | n in inserted ensures Str(n) in Values(w) {
        var i :| 0 <= i < |inserted| && inserted[i] == n;
        assert Strings(inserted)[i] == Str(n);
      }
    }
  }

  /** What was held before a requirement for a list is held after it. */
  lemma StillHeld(d: Settings, r: Requirement, render: Render, names: seq<string>)
    requires !Across(r) && names != [] && HoldsNames(Current(d, Segments(r)), names)
    ensures HoldsNames(AfterOne(d, r, render).0, names)
  {
    ListHolds(d, r, render);
    var v := Current(d, Segments(r));
    assert names[0] in names && Str(names[0]) in Values(v);
    assert Values(v) == Found(v);
  }

  /** Some across_jobs requirement at the path came after something had been reported for it. */
  ghost predicate AcrossCame(d: Settings, rs: seq<Requirement>, p: string, render: Render) {
    exists j :: 0 <= j < |rs| && Across(rs[j]) && rs[j].configPath == p && p in Reported(d, rs[..j], render)
  }

  lemma AcrossCameNext(d: Settings, before: seq<Requirement>, r: Requirement, p: string, render: Render)
    ensures AcrossCame(d, before + [r], p, render) <==>
      AcrossCame(d, before, p, render) || (Across(r) && r.configPath == p && p in Reported(d, before, render))
  {
    var rs := before + [r];
    assert rs[..|before|] == before && rs[|before|] == r;
    forall j | 0 <= j < |before| ensures rs[j] == before[j] && rs[..j] == before[..j] {
    }
  }

  lemma ApartNext(before: seq<Requirement>, r: Requirement, q: seq<string>)
    requires Apart(before + [r], q)
    ensures Apart(before, q) && (Segments(r) == q || !Comparable(Segments(r), q))
  {
    var rs := before + [r];
    assert rs[|before|] == r;
    forall i | 0 <= i < |before| ensures rs[i] == before[i] {
    }
  }

  lemma SamePath(p: string, q: string)
    requires Text.Split(p, '.') == Text.Split(q, '.')
    ensures p == q
  {
    Text.JoinSplit(p, '.');
    Text.JoinSplit(q, '.');
  }

  /**
   Every name that a whole pass reports is at its path afterwards, unless an across_jobs requirement
   at the path came later. Required paths strictly above or beneath the path are excluded, since
   each of the two overwrites the other.
   */
  lemma {:induction false} ReportedHeld(d: Settings, rs: seq<Requirement>, p: string, render: Render)
    requires Apart(rs, Text.Split(p, '.')) && p in Reported(d, rs, render) && !AcrossCame(d, rs, p, render)
    ensures Held(d, rs, p, render)
    decreases |rs|
  {
    var before, r := rs[..|rs| - 1], rs[|rs| - 1];
    assert rs == before + [r];
    AcrossCameNext(d, before, r, p, render);
    ApartNext(before, r, Text.Split(p, '.'));
    if p in Reported(d, before, render) && !AcrossCame(d, before, p, render) {
      ReportedHeld(d, before, p, render);
    }
    ReportedHeldNext(d, before, r, p, render);
  }

  /** Something is reported for the path, and it is there. */
  ghost predicate Held(d: Settings, rs: seq<Requirement>, p: string, render: Render) {
    && p in Reported(d, rs, render) && Reported(d, rs, render)[p] != []
    && HoldsNames(Current(Repaired(d, rs, render), Text.Split(p, '.')), Reported(d, rs, render)[p])
  }

  lemma ReportedHeldNext(d: Settings, before: seq<Requirement>, r: Requirement, p: string, render: Render)
    requires Segments(r) == Text.Split(p, '.') || !Comparable(Segments(r), Text.Split(p, '.'))
    requires p in Reported(d, before, render) ==> Held(d, before, p, render)
    requires p in Reported(d, before + [r], render)
    requires !(Across(r) && r.configPath == p && p in Reported(d, before, render))
    ensures Held(d, before + [r], p, render)
  {
    ReportedSnoc(d, before, r, render);
    RepairedSnoc(d, before, r, render);
    var mid := Repaired(d, before, render);
    if r.configPath == p && AfterOne(mid, r, render).1 != [] {
      InsertedHeld(mid, r, render);
    } else {
      HeldNext(mid, r, p, render, Reported(d, before, render)[p]);
    }
  }

  lemma HeldNext(d: Settings, r: Requirement, p: string, render: Render, names: seq<string>)
    requires Segments(r) == Text.Split(p, '.') || !Comparable(Segments(r), Text.Split(p, '.'))
    requires r.configPath == p ==> !Across(r)
    requires names != [] && HoldsNames(Current(d, Text.Split(p, '.')), names)
    ensures HoldsNames(Current(Ensured(d, r, render), Text.Split(p, '.')), names)
  {
    if r.configPath == p { StillHeld(d, r, render, names); } else { HeldElsewhere(d, r, p, render); }
  }

  lemma HeldElsewhere(d: Settings, r: Requirement, p: string, render: Render)
    requires r.configPath != p
    requires Segments(r) == Text.Split(p, '.') || !Comparable(Segments(r), Text.Split(p, '.'))
    ensures Current(Ensured(d, r, render), Text.Split(p, '.')) == Current(d, Text.Split(p, '.'))
  {
    var q, path := Text.Split(p, '.'), Segments(r);
    if path == q { SamePath(r.configPath, p); }
    GetPutElsewhere(d, path, Fixed(Current(d, path), r, Leaf(path), render), q);
  }

  // ---------------------------------------------------------------------------
  // What the preflight asks
  // ---------------------------------------------------------------------------

  /** A requirement is met by one scalar, if it compares across jobs, and else by enough different values. */
  lemma MetIff(d: Settings, r: Requirement, render: Render)
    ensures Met(d, r, render) <==>
      && Get(d, Segments(r)).Some?
      && var v := Get(d, Segments(r)).value;
      if r.mode == Comparison && r.scope == AcrossJobs then v.Str? || v.Number?
      else
        && !v.Dict?
        && var count := |set x | x in (if v.List? then v.items else [v]) :: TextOf(x, render)|;
        r.minimum <= count && (r.maximum.Some? ==> count <= r.maximum.value)
  {
    if Get(d, Segments(r)).Some? {
      var v := Get(d, Segments(r)).value;
      assert Texts(Values(v), render) == set x | x in (if v.List? then v.items else [v]) :: TextOf(x, render);
    }
  }

  /** A value is read at a path by descending through mappings, one component at a time. */
  lemma GetIs(d: Settings, key: string, rest: seq<string>)
    ensures Get(d, [key] + rest) ==
      if key !in d then None else if rest == [] then Some(d[key])
      else if d[key].Dict? then Get(d[key].entries, rest) else None
  {
    assert ([key] + rest)[1..] == rest;
  }
}
