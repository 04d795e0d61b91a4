/**
 When one repair pass satisfies every methodology requirement at once: exactly when the requirements
 agree with each other and the values already in the file suit them. A pass that satisfies them all
 is final: the next one changes nothing.
 */
module MethodologyConvergence {
  import opened Wrappers
  import opened Lists
  import opened MethodologyRepair

  // ---------------------------------------------------------------------------
  // Preflight
  // ---------------------------------------------------------------------------

  predicate IsScalar(v: Value) { v.Str? || v.Number? }

  function Values(v: Value): seq<Value> { if v.List? then v.items else [v] }

  function Count(v: Value, render: Render): nat { |Texts(Values(v), render)| }

  predicate Fits(n: nat, maximum: Option<nat>) { maximum.Some? ==> n <= maximum.value }

  predicate Meets(v: Value, r: Requirement, render: Render) {
    && !v.Dict?
    && if Across(r) then IsScalar(v)
       else r.minimum <= Count(v, render) && Fits(Count(v, render), r.maximum)
  }

  /** The base-configuration part of the preflight accepts `d` for `r`. */
  predicate Met(d: Settings, r: Requirement, render: Render) {
    Get(d, Segments(r)).Some? && Meets(Get(d, Segments(r)).value, r, render)
  }

  ghost predicate AllMet(d: Settings, rs: seq<Requirement>, render: Render) {
    forall i :: 0 <= i < |rs| ==> Met(d, rs[i], render)
  }

  // ---------------------------------------------------------------------------
  // Requirements that agree
  // ---------------------------------------------------------------------------

  /** Both can hold of one file: neither path lies beneath the other, and shared paths share their bounds. */
  predicate Agree(a: Requirement, b: Requirement) {
    && !(Segments(a) < Segments(b))
    && (Segments(a) == Segments(b) && !Across(b) ==>
          if Across(a) then b.minimum <= 1 else Fits(a.minimum, b.maximum))
  }

  ghost predicate Compatible(rs: seq<Requirement>) {
    forall i, j :: 0 <= i < |rs| && 0 <= j < |rs| ==> Agree(rs[i], rs[j])
  }

  /** What the requirement schema guarantees (both bounds at least one), and at most one across_jobs. */
  ghost predicate WellFormed(rs: seq<Requirement>) {
    && (forall i :: 0 <= i < |rs| ==> rs[i].minimum >= 1 && Fits(1, rs[i].maximum))
    && (forall i, j :: 0 <= i < j < |rs| ==> !(Across(rs[i]) && Across(rs[j])))
  }

  ghost predicate AcrossAt(rs: seq<Requirement>, q: seq<string>) {
    exists i :: 0 <= i < |rs| && Across(rs[i]) && Segments(rs[i]) == q
  }

  /** The repair can turn `v` into one scalar: nothing, a wrapper, a scalar, or a list led by one. */
  predicate Carries(v: Value) {
    v.Null? || v.Dict? || IsScalar(v) || (v.List? && (v.items == [] || IsScalar(v.items[0])))
  }

  /** The value found at the path of `r` can be repaired to meet it. */
  ghost predicate Suits(v: Value, r: Requirement, rs: seq<Requirement>, render: Render) {
    if Across(r) then Carries(v)
    else AcrossAt(rs, Segments(r)) || Fits(|Texts(Existing(v), render)|, r.maximum)
  }

  ghost predicate AllSuit(d: Settings, rs: seq<Requirement>, render: Render) {
    forall i :: 0 <= i < |rs| ==> Suits(Current(d, Segments(rs[i])), rs[i], rs, render)
  }

  lemma MetTogetherAgree(d: Settings, a: Requirement, b: Requirement, render: Render)
    requires Met(d, a, render) && Met(d, b, render)
    ensures Agree(a, b)
  {
    if Segments(a) < Segments(b) { AncestorIsDict(d, Segments(a), Segments(b)); }
    if Segments(a) == Segments(b) && Across(a) && !Across(b) {
      var v := Get(d, Segments(a)).value;
      OneText(v, render);
    }
  }

  lemma OneText(v: Value, render: Render)
    ensures !v.List? ==> Count(v, render) == 1
  {
    assert Texts([v], render) == {TextOf(v, render)};
  }

  // ---------------------------------------------------------------------------
  // One repair at one path
  // ---------------------------------------------------------------------------

  lemma TextsOfStrings(names: seq<string>, render: Render)
    ensures Texts(Strings(names), render) == set x | x in names
  {
    var vs := Strings(names);
    forall x ensures x in Texts(vs, render) <==> x in names {
      if x in names {
        var i :| 0 <= i < |names| && names[i] == x;
        assert vs[i] in vs && TextOf(vs[i], render) == x;
      }
    }
  }

  lemma TextsConcat(a: seq<Value>, b: seq<Value>, render: Render)
    ensures Texts(a + b, render) == Texts(a, render) + Texts(b, render)
  {
  }

  function Max(a: nat, b: nat): nat { if a < b then b else a }

  lemma ToppedUp(existing: seq<Value>, leaf: string, needed: nat, render: Render)
    ensures var names := Placeholders(leaf, Texts(existing, render), needed, 1);
      |Texts(existing + Strings(names), render)| == |Texts(existing, render)| + needed
  {
    var have := Texts(existing, render);
    var names := Placeholders(leaf, have, needed, 1);
    var new_ := set x | x in names;
    PlaceholdersNew(leaf, have, needed, 1);
    DistinctSize(names);
    TextsOfStrings(names, render);
    TextsConcat(existing, Strings(names), render);
    assert have !! new_;
  }

  /** A list requirement tops the distinct values up to its minimum and keeps the old ones in front. */
  lemma FixedList(v: Value, r: Requirement, leaf: string, render: Render)
    requires !Across(r) && r.minimum >= 1
    ensures var w := Fixed(v, r, leaf, render);
      && !w.Dict? && !w.Null? && Existing(v) <= Existing(w)
      && |Texts(Existing(w), render)| == Max(|Texts(Existing(v), render)|, r.minimum)
  {
    ToppedUp(Existing(v), leaf, Shortfall(v, r, render), render);
    assert Texts([], render) == {};
  }

  /** A requirement for one value leaves alone everything but an absent, wrapped or empty leaf. */
  lemma FixedSingle(v: Value, r: Requirement, leaf: string, render: Render)
    requires !Across(r) && r.minimum == 1
    ensures var w := Fixed(v, r, leaf, render);
      ((v.Null? || v.Dict? || v == List([])) && w.List? && w.items != [] && w.items[0].Str?) || w == v
  {
    var existing := Existing(v);
    if existing != [] {
      assert TextOf(existing[0], render) in Texts(existing, render);
    } else {
      assert Texts(existing, render) == {};
    }
  }

  /** The value at `q` after the requirements, of which only those at `q` matter. */
  function Track(v: Value, rs: seq<Requirement>, q: seq<string>, render: Render): Value
    requires q != []
  {
    if rs == [] then v
    else
      var before := Track(v, rs[..|rs| - 1], q, render);
      var r := rs[|rs| - 1];
      if Segments(r) == q then Fixed(before, r, Leaf(q), render) else before
  }

  ghost predicate Required(rs: seq<Requirement>, q: seq<string>) {
    exists i :: 0 <= i < |rs| && Segments(rs[i]) == q
  }

  /** No required path lies strictly above or beneath `q`. */
  ghost predicate Apart(rs: seq<Requirement>, q: seq<string>) {
    forall i :: 0 <= i < |rs| ==> Segments(rs[i]) == q || !Comparable(Segments(rs[i]), q)
  }

  lemma {:induction false} RepairedAt(d: Settings, rs: seq<Requirement>, q: seq<string>, render: Render)
    requires q != [] && Apart(rs, q)
    ensures Current(Repaired(d, rs, render), q) == Track(Current(d, q), rs, q, render)
    ensures Get(Repaired(d, rs, render), q).Some? || (!Required(rs, q) && Get(Repaired(d, rs, render), q) == Get(d, q))
    ensures !Required(rs, q) ==> Get(Repaired(d, rs, render), q) == Get(d, q)
  {
    if rs != [] {
      var before, r := rs[..|rs| - 1], rs[|rs| - 1];
      RepairedAt(d, before, q, render);
      var mid := Repaired(d, before, render);
      var w := Fixed(Current(mid, Segments(r)), r, Leaf(Segments(r)), render);
      if Segments(r) == q {
        GetPut(mid, q, w);
      } else {
        GetPutElsewhere(mid, Segments(r), w, q);
        RequiredSplit(rs, q);
      }
    }
  }

  lemma RequiredSplit(rs: seq<Requirement>, q: seq<string>)
    requires rs != []
    ensures Required(rs, q) <==> Required(rs[..|rs| - 1], q) || Segments(rs[|rs| - 1]) == q
    ensures AcrossAt(rs, q) <==>
      AcrossAt(rs[..|rs| - 1], q) || (Across(rs[|rs| - 1]) && Segments(rs[|rs| - 1]) == q)
  {
    var before := rs[..|rs| - 1];
    if Required(rs, q) && Segments(rs[|rs| - 1]) != q {
      var i :| 0 <= i < |rs| && Segments(rs[i]) == q;
      assert before[i] == rs[i];
    }
    if Required(before, q) {
      var i :| 0 <= i < |before| && Segments(before[i]) == q;
      assert rs[i] == before[i];
    }
    if AcrossAt(rs, q) && !(Across(rs[|rs| - 1]) && Segments(rs[|rs| - 1]) == q) {
      var i :| 0 <= i < |rs| && Across(rs[i]) && Segments(rs[i]) == q;
      assert before[i] == rs[i];
    }
    if AcrossAt(before, q) {
      var i :| 0 <= i < |before| && Across(before[i]) && Segments(before[i]) == q;
      assert rs[i] == before[i];
    }
  }

  /** The largest minimum asked for at `q`. */
  function Demand(rs: seq<Requirement>, q: seq<string>): nat {
    if rs == [] then 0
    else
      var r, before := rs[|rs| - 1], Demand(rs[..|rs| - 1], q);
      if Segments(r) == q then Max(before, r.minimum) else before
  }

  lemma {:induction false} DemandCovers(rs: seq<Requirement>, q: seq<string>, i: nat)
    requires i < |rs| && Segments(rs[i]) == q
    ensures rs[i].minimum <= Demand(rs, q)
  {
    if i < |rs| - 1 { DemandCovers(rs[..|rs| - 1], q, i); }
  }

  lemma {:induction false} DemandAttained(rs: seq<Requirement>, q: seq<string>)
    ensures Demand(rs, q) == 0 || exists i :: 0 <= i < |rs| && Segments(rs[i]) == q && rs[i].minimum == Demand(rs, q)
  {
    if rs != [] {
      var before := rs[..|rs| - 1];
      DemandAttained(before, q);
      if Demand(before, q) != 0 && Demand(rs, q) == Demand(before, q) {
        var i :| 0 <= i < |before| && Segments(before[i]) == q && before[i].minimum == Demand(before, q);
        assert rs[i] == before[i];
      }
    }
  }

  lemma {:induction false} TrackList(v: Value, rs: seq<Requirement>, q: seq<string>, render: Render)
    requires q != [] && !AcrossAt(rs, q) && forall i :: 0 <= i < |rs| ==> rs[i].minimum >= 1
    ensures var w := Track(v, rs, q, render);
      && (Required(rs, q) ==> !w.Dict? && !w.Null?) && Existing(v) <= Existing(w)
      && |Texts(Existing(w), render)| == Max(|Texts(Existing(v), render)|, Demand(rs, q))
  {
    if rs != [] {
      RequiredSplit(rs, q);
      var before, r := rs[..|rs| - 1], rs[|rs| - 1];
      TrackList(v, before, q, render);
      if Segments(r) == q {
        FixedList(Track(v, before, q, render), r, Leaf(q), render);
      }
    }
  }

  /** The scalar the repair keeps for an across_jobs comparison. */
  function First(v: Value): Option<Value> {
    if IsScalar(v) then Some(v)
    else if v.List? && v.items != [] then Some(v.items[0])
    else None
  }

  ghost predicate SinglesAt(rs: seq<Requirement>, q: seq<string>) {
    && (forall i :: 0 <= i < |rs| && Segments(rs[i]) == q && !Across(rs[i]) ==> rs[i].minimum == 1)
    && (forall i, j :: 0 <= i < j < |rs| ==> !(Across(rs[i]) && Across(rs[j])))
  }

  lemma {:induction false} TrackAcross(v: Value, rs: seq<Requirement>, q: seq<string>, render: Render)
    requires q != [] && SinglesAt(rs, q)
    ensures var w := Track(v, rs, q, render);
      && (AcrossAt(rs, q) ==> (IsScalar(w) <==> Carries(v)))
      && (!AcrossAt(rs, q) ==> (Carries(w) <==> Carries(v)))
      && (Carries(v) && First(v).Some? ==> First(w) == First(v))
  {
    if rs != [] {
      RequiredSplit(rs, q);
      var before, r := rs[..|rs| - 1], rs[|rs| - 1];
      assert forall i :: 0 <= i < |before| ==> before[i] == rs[i];
      TrackAcross(v, before, q, render);
      if Segments(r) == q && !Across(r) {
        FixedSingle(Track(v, before, q, render), r, Leaf(q), render);
      }
    }
  }

  // ---------------------------------------------------------------------------
  // The whole pass
  // ---------------------------------------------------------------------------

  lemma CompatibleApart(rs: seq<Requirement>, i: nat)
    requires Compatible(rs) && i < |rs|
    ensures Apart(rs, Segments(rs[i]))
  {
    forall j | 0 <= j < |rs|
      ensures Segments(rs[j]) == Segments(rs[i]) || !Comparable(Segments(rs[j]), Segments(rs[i]))
    {
      assert Agree(rs[i], rs[j]) && Agree(rs[j], rs[i]);
    }
  }

  lemma CompatibleSingles(rs: seq<Requirement>, q: seq<string>)
    requires Compatible(rs) && WellFormed(rs) && AcrossAt(rs, q)
    ensures SinglesAt(rs, q)
  {
    var k :| 0 <= k < |rs| && Across(rs[k]) && Segments(rs[k]) == q;
    forall i | 0 <= i < |rs| && Segments(rs[i]) == q && !Across(rs[i]) ensures rs[i].minimum == 1 {
      assert Agree(rs[k], rs[i]);
    }
  }

  /** Where an across_jobs comparison has a say, its requirements hold together or not at all. */
  lemma MetWithAcross(d: Settings, rs: seq<Requirement>, i: nat, render: Render)
    requires Compatible(rs) && WellFormed(rs) && i < |rs| && AcrossAt(rs, Segments(rs[i]))
    ensures Carries(Current(d, Segments(rs[i]))) ==>
      && Met(Repaired(d, rs, render), rs[i], render)
      && !Current(Repaired(d, rs, render), Segments(rs[i])).Null?
    ensures Across(rs[i]) && Met(Repaired(d, rs, render), rs[i], render) ==> Carries(Current(d, Segments(rs[i])))
  {
    var q := Segments(rs[i]);
    CompatibleApart(rs, i);
    CompatibleSingles(rs, q);
    RepairedAt(d, rs, q, render);
    TrackAcross(Current(d, q), rs, q, render);
    assert Required(rs, q);
    OneText(Current(Repaired(d, rs, render), q), render);
  }

  lemma MetWithoutAcross(d: Settings, rs: seq<Requirement>, i: nat, render: Render)
    requires Compatible(rs) && WellFormed(rs) && i < |rs| && !AcrossAt(rs, Segments(rs[i]))
    ensures !Current(Repaired(d, rs, render), Segments(rs[i])).Null?
    ensures Met(Repaired(d, rs, render), rs[i], render) <==>
      Fits(|Texts(Existing(Current(d, Segments(rs[i]))), render)|, rs[i].maximum)
  {
    var q, r := Segments(rs[i]), rs[i];
    assert !Across(r);
    CompatibleApart(rs, i);
    RepairedAt(d, rs, q, render);
    TrackList(Current(d, q), rs, q, render);
    assert Required(rs, q);
    var w := Current(Repaired(d, rs, render), q);
    assert Values(w) == Existing(w);
    DemandCovers(rs, q, i);
    DemandAttained(rs, q);
    var k :| 0 <= k < |rs| && Segments(rs[k]) == q && rs[k].minimum == Demand(rs, q);
    assert !Across(rs[k]) && Agree(rs[k], r);
  }

  lemma CompatibleMeetsIff(d: Settings, rs: seq<Requirement>, render: Render)
    requires Compatible(rs) && WellFormed(rs)
    ensures AllMet(Repaired(d, rs, render), rs, render) <==> AllSuit(d, rs, render)
  {
    var after := Repaired(d, rs, render);
    if AllMet(after, rs, render) {
      forall i | 0 <= i < |rs| ensures Suits(Current(d, Segments(rs[i])), rs[i], rs, render) {
        if AcrossAt(rs, Segments(rs[i])) {
          MetWithAcross(d, rs, i, render);
        } else {
          MetWithoutAcross(d, rs, i, render);
        }
      }
    }
    if AllSuit(d, rs, render) {
      forall i | 0 <= i < |rs| ensures Met(after, rs[i], render) {
        if AcrossAt(rs, Segments(rs[i])) {
          var k :| 0 <= k < |rs| && Across(rs[k]) && Segments(rs[k]) == Segments(rs[i]);
          assert Suits(Current(d, Segments(rs[k])), rs[k], rs, render);
          MetWithAcross(d, rs, i, render);
        } else {
          MetWithoutAcross(d, rs, i, render);
        }
      }
    }
  }

  lemma AllMetCompatible(d: Settings, rs: seq<Requirement>, render: Render)
    requires AllMet(d, rs, render)
    ensures Compatible(rs)
  {
    forall i, j | 0 <= i < |rs| && 0 <= j < |rs| ensures Agree(rs[i], rs[j]) {
      MetTogetherAgree(d, rs[i], rs[j], render);
    }
  }

  /** One pass satisfies everything at once exactly when the requirements agree and the old values suit. */
  lemma RepairMeetsIff(d: Settings, rs: seq<Requirement>, render: Render)
    requires WellFormed(rs)
    ensures AllMet(Repaired(d, rs, render), rs, render) <==> Compatible(rs) && AllSuit(d, rs, render)
  {
    if AllMet(Repaired(d, rs, render), rs, render) { AllMetCompatible(Repaired(d, rs, render), rs, render); }
    if Compatible(rs) { CompatibleMeetsIff(d, rs, render); }
  }

  /** Some file can satisfy the requirements exactly when they agree; the repair of no file is one. */
  lemma SatisfiableIff(rs: seq<Requirement>, render: Render)
    requires WellFormed(rs)
    ensures (exists d :: AllMet(d, rs, render)) <==> Compatible(rs)
    ensures Compatible(rs) ==> AllMet(Repaired(map[], rs, render), rs, render)
  {
    if d :| AllMet(d, rs, render) { AllMetCompatible(d, rs, render); }
    if Compatible(rs) {
      assert Texts([], render) == {};
      forall i | 0 <= i < |rs| ensures Suits(Current(map[], Segments(rs[i])), rs[i], rs, render) {
      }
      CompatibleMeetsIff(map[], rs, render);
    }
  }

  /** A requirement that is met by a value changes nothing. */
  lemma MetIsSettled(d: Settings, r: Requirement, render: Render)
    requires Met(d, r, render) && !Current(d, Segments(r)).Null?
    ensures Ensured(d, r, render) == d
  {
    var path := Segments(r);
    var v := Current(d, path);
    assert !Across(r) ==> Values(v) == Existing(v);
    assert Fixed(v, r, Leaf(path), render) == v;
    PutSame(d, path, v);
  }

  lemma {:induction false} SettledPass(d: Settings, rs: seq<Requirement>, render: Render)
    ensures !PassChanges(d, rs, render) <==> forall i :: 0 <= i < |rs| ==> Ensured(d, rs[i], render) == d
    ensures !PassChanges(d, rs, render) ==> Repaired(d, rs, render) == d
  {
    if rs != [] {
      var before, last := rs[..|rs| - 1], rs[|rs| - 1];
      SettledPass(d, before, render);
      assert rs == before + [last];
      RepairedSnoc(d, before, last, render);
      if !PassChanges(d, rs, render) {
        forall i | 0 <= i < |rs| ensures Ensured(d, rs[i], render) == d {
          if i < |before| { assert before[i] == rs[i]; }
        }
      } else if PassChanges(d, before, render) {
        var i :| 0 <= i < |before| && Ensured(d, before[i], render) != d;
        assert rs[i] == before[i];
      } else {
        assert Ensured(d, rs[|rs| - 1], render) != d;
      }
    }
  }

  /** After a pass that satisfied everything the next pass finds nothing to change. */
  lemma RepairIsFinal(d: Settings, rs: seq<Requirement>, render: Render)
    requires WellFormed(rs) && AllMet(Repaired(d, rs, render), rs, render)
    ensures Repaired(Repaired(d, rs, render), rs, render) == Repaired(d, rs, render)
    ensures !PassChanges(Repaired(d, rs, render), rs, render)
  {
    var after := Repaired(d, rs, render);
    RepairMeetsIff(d, rs, render);
    forall i | 0 <= i < |rs| ensures Ensured(after, rs[i], render) == after {
      if AcrossAt(rs, Segments(rs[i])) {
        var k :| 0 <= k < |rs| && Across(rs[k]) && Segments(rs[k]) == Segments(rs[i]);
        assert Suits(Current(d, Segments(rs[k])), rs[k], rs, render);
        MetWithAcross(d, rs, i, render);
      } else {
        MetWithoutAcross(d, rs, i, render);
      }
      MetIsSettled(after, rs[i], render);
    }
    SettledPass(after, rs, render);
  }

  /** Nested required paths never settle: every pass over every file reports a change. */
  lemma NestedNeverSettles(d: Settings, rs: seq<Requirement>, i: nat, j: nat, render: Render)
    requires i < |rs| && j < |rs| && Segments(rs[i]) < Segments(rs[j])
    requires rs[i].minimum >= 1
    ensures PassChanges(d, rs, render)
  {
    if !PassChanges(d, rs, render) {
      SettledPass(d, rs, render);
      SettledLeaf(d, rs[i], render);
      SettledLeaf(d, rs[j], render);
      AncestorIsDict(d, Segments(rs[i]), Segments(rs[j]));
    }
  }

  lemma SettledLeaf(d: Settings, r: Requirement, render: Render)
    requires Ensured(d, r, render) == d
    ensures Get(d, Segments(r)).Some?
    ensures r.minimum >= 1 ==> !Get(d, Segments(r)).value.Dict?
  {
    var path := Segments(r);
    var v := Current(d, path);
    GetPut(d, path, Fixed(v, r, Leaf(path), render));
    if !Across(r) && r.minimum >= 1 { FixedList(v, r, Leaf(path), render); }
  }

  /** The values found at a required path survive: a list as a prefix, an across_jobs list by its first. */
  lemma ExistingSurvives(d: Settings, rs: seq<Requirement>, i: nat, render: Render)
    requires WellFormed(rs) && Compatible(rs) && i < |rs|
    ensures var v, w := Current(d, Segments(rs[i])), Current(Repaired(d, rs, render), Segments(rs[i]));
      && (!AcrossAt(rs, Segments(rs[i])) ==> Existing(v) <= Existing(w))
      && (AcrossAt(rs, Segments(rs[i])) && Carries(v) && First(v).Some? ==> w == First(v).value)
  {
    var q := Segments(rs[i]);
    CompatibleApart(rs, i);
    RepairedAt(d, rs, q, render);
    if AcrossAt(rs, q) {
      CompatibleSingles(rs, q);
      TrackAcross(Current(d, q), rs, q, render);
    } else {
      TrackList(Current(d, q), rs, q, render);
    }
  }

  /** A path that no required path meets is left exactly as it was, whatever the requirements. */
  lemma UnrelatedUntouched(d: Settings, rs: seq<Requirement>, q: seq<string>, render: Render)
    requires q != [] && forall i :: 0 <= i < |rs| ==> !Comparable(Segments(rs[i]), q)
    ensures Get(Repaired(d, rs, render), q) == Get(d, q)
  {
    RepairedAt(d, rs, q, render);
  }
}
