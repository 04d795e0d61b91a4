/**
 Exactly which interleavings leave a run with two reserved versions (contract_candidates.py,
 allocate_version): those in which one of its calls looks for a reservation before another of its
 calls writes its marker, and writes its own marker afterwards.
 */
module VersionOverlap {
  import opened Wrappers
  import opened VersionAllocation
  import opened SemanticVersion

  /** The state before the `n`th action. */
  ghost function StateAt(s: State, actions: seq<Action>, n: nat, bump: Bumps): State
    requires n <= |actions|
  {
    Play(s, actions[..n], bump)
  }

  lemma StateNext(s: State, actions: seq<Action>, n: nat, bump: Bumps)
    requires n < |actions|
    ensures StateAt(s, actions, n + 1, bump) == Apply(StateAt(s, actions, n, bump), actions[n], bump)
  {
    assert actions[..n + 1] == actions[..n] + [actions[n]];
    PlayConcat(s, actions[..n], [actions[n]], bump);
    assert [actions[n]][1..] == [];
    var before := StateAt(s, actions, n, bump);
    assert Play(before, [actions[n]], bump) == Play(Apply(before, actions[n], bump), [], bump);
  }

  ghost predicate UnderWay(s: State, c: nat, run: Run) {
    c in s.calls && Active(s.calls[c]) && s.calls[c].run == run
  }

  /** The `i`th action is the look of a call of the run, which finds no reservation. */
  ghost predicate LooksAt(s: State, actions: seq<Action>, i: nat, c: nat, run: Run, bump: Bumps)
    requires i < |actions|
  {
    var before := StateAt(s, actions, i, bump);
    && actions[i].Look? && actions[i].call == c && actions[i].run == run
    && c !in before.calls && forall v :: !MarkedFor(before.dirs, run, v)
  }

  /** The `j`th action is a call of the run writing its marker. */
  ghost predicate MarksAt(s: State, actions: seq<Action>, j: nat, d: nat, run: Run, bump: Bumps)
    requires j < |actions|
  {
    var before := StateAt(s, actions, j, bump);
    actions[j] == Mark(d) && d in before.calls && before.calls[d].Claimed? && before.calls[d].run == run
  }

  /** From its look at `i` on the call is under way, without a crash, up to `n`. */
  ghost predicate Since(s: State, actions: seq<Action>, i: nat, n: nat, c: nat, run: Run, bump: Bumps)
    requires n <= |actions|
  {
    && i < n && LooksAt(s, actions, i, c, run, bump)
    && forall m: nat :: i < m <= n ==> UnderWay(StateAt(s, actions, m, bump), c, run)
  }

  /** Call `c` looks, then another call of the run writes its marker, then `c` writes its own. */
  ghost predicate Overtaken(s: State, actions: seq<Action>, i: nat, j: nat, k: nat, c: nat, d: nat, run: Run,
      bump: Bumps)
  {
    && i < j < k < |actions| && c != d
    && Since(s, actions, i, k, c, run, bump)
    && MarksAt(s, actions, j, d, run, bump) && MarksAt(s, actions, k, c, run, bump)
  }

  ghost predicate TwoVersions(s: State, run: Run) {
    exists v, w :: v != w && MarkedFor(s.dirs, run, v) && MarkedFor(s.dirs, run, w)
  }

  /** Nothing of the run yet. */
  ghost predicate Untouched(s: State, run: Run) {
    (forall v :: !MarkedFor(s.dirs, run, v)) && forall c :: !UnderWay(s, c, run)
  }

  lemma SoundAt(s: State, actions: seq<Action>, m: nat, n: nat, bump: Bumps)
    requires Advances(bump) && Sound(s, bump) && m <= n <= |actions|
    ensures Sound(StateAt(s, actions, m, bump), bump) && Sound(StateAt(s, actions, n, bump), bump)
    ensures Grows(StateAt(s, actions, m, bump), StateAt(s, actions, n, bump))
  {
    PlaySound(s, actions[..m], bump);
    assert actions[..n] == actions[..m] + actions[m..n];
    PlayConcat(s, actions[..m], actions[m..n], bump);
    PlaySound(StateAt(s, actions, m, bump), actions[m..n], bump);
  }

  /** A call comes to be under way only by looking in vain, and goes on until it marks, fails or crashes. */
  lemma StepUnderWay(s: State, a: Action, c: nat, run: Run, bump: Bumps)
    requires UnderWay(Apply(s, a, bump), c, run)
    ensures UnderWay(s, c, run) ||
      (a.Look? && a.call == c && a.run == run && c !in s.calls && forall v :: !MarkedFor(s.dirs, run, v))
  {
    if a.Look? && a.call == c && c !in s.calls {
      assert IsReservation(s.dirs, a.run, ReservationOf(s.dirs, a.run));
    }
  }

  lemma {:induction false} LookedOnce(s: State, actions: seq<Action>, n: nat, c: nat, run: Run, bump: Bumps)
    returns (i: nat)
    requires 0 < n <= |actions| && Untouched(s, run) && UnderWay(StateAt(s, actions, n, bump), c, run)
    ensures Since(s, actions, i, n, c, run, bump)
  {
    assert StateAt(s, actions, 0, bump) == s;
    StateNext(s, actions, n - 1, bump);
    StepUnderWay(StateAt(s, actions, n - 1, bump), actions[n - 1], c, run, bump);
    if UnderWay(StateAt(s, actions, n - 1, bump), c, run) {
      i := LookedOnce(s, actions, n - 1, c, run, bump);
    } else {
      i := n - 1;
    }
  }

  /** A marker comes to be only by a call of its run writing it. */
  lemma StepMarks(s: State, a: Action, run: Run, v: Version, bump: Bumps)
    requires MarkedFor(Apply(s, a, bump).dirs, run, v) && !MarkedFor(s.dirs, run, v)
    ensures a.Mark? && a.call in s.calls && s.calls[a.call] == Claimed(run, v, s.calls[a.call].listed)
  {
  }

  lemma {:induction false} MarkedOnce(s: State, actions: seq<Action>, n: nat, run: Run, v: Version, bump: Bumps)
    returns (j: nat, d: nat)
    requires 0 < n <= |actions| && Untouched(s, run) && MarkedFor(StateAt(s, actions, n, bump).dirs, run, v)
    ensures j < n && MarksAt(s, actions, j, d, run, bump) && StateAt(s, actions, j, bump).calls[d].version == v
  {
    assert StateAt(s, actions, 0, bump) == s;
    StateNext(s, actions, n - 1, bump);
    if MarkedFor(StateAt(s, actions, n - 1, bump).dirs, run, v) {
      j, d := MarkedOnce(s, actions, n - 1, run, v, bump);
    } else {
      StepMarks(StateAt(s, actions, n - 1, bump), actions[n - 1], run, v, bump);
      j, d := n - 1, actions[n - 1].call;
    }
  }

  /** The marker that was written is there from then on. */
  lemma MarkStays(s: State, actions: seq<Action>, j: nat, d: nat, run: Run, n: nat, bump: Bumps)
    requires Advances(bump) && Sound(s, bump) && j < n <= |actions| && MarksAt(s, actions, j, d, run, bump)
    ensures MarkedFor(StateAt(s, actions, n, bump).dirs, run, StateAt(s, actions, j, bump).calls[d].version)
    ensures !UnderWay(StateAt(s, actions, j + 1, bump), d, run)
  {
    StateNext(s, actions, j, bump);
    SoundAt(s, actions, j + 1, n, bump);
  }

  /** Of two markers the later was written by a call that had looked before the earlier was. */
  lemma LaterLookedBefore(s: State, actions: seq<Action>, j: nat, d: nat, k: nat, c: nat, run: Run, bump: Bumps)
    returns (i: nat)
    requires Advances(bump) && Sound(s, bump) && Untouched(s, run) && j < k < |actions|
    requires MarksAt(s, actions, j, d, run, bump) && MarksAt(s, actions, k, c, run, bump)
    ensures Overtaken(s, actions, i, j, k, c, d, run, bump)
  {
    i := LookedOnce(s, actions, k, c, run, bump);
    MarkStays(s, actions, j, d, run, j + 1, bump);
    if j < i { MarkStays(s, actions, j, d, run, i, bump); }
    assert i < j;
    assert UnderWay(StateAt(s, actions, j + 1, bump), c, run);
  }

  lemma OvertakenReservesTwice(s: State, actions: seq<Action>, j: nat, d: nat, k: nat, c: nat, run: Run, bump: Bumps)
    requires Advances(bump) && Sound(s, bump) && j < k < |actions|
    requires MarksAt(s, actions, j, d, run, bump) && MarksAt(s, actions, k, c, run, bump)
    ensures TwoVersions(StateAt(s, actions, |actions|, bump), run)
  {
    MarkStays(s, actions, j, d, run, k, bump);
    MarkStays(s, actions, j, d, run, |actions|, bump);
    MarkStays(s, actions, k, c, run, |actions|, bump);
    SoundAt(s, actions, k, k, bump);
    var before := StateAt(s, actions, k, bump);
    assert PhaseSound(before, before.calls[c], bump);
  }

  /**
   A run of which there was nothing yet ends with two versions if and only if one of its calls looked
   before another of its calls wrote its marker, and wrote its own marker afterwards.
   */
  lemma TwoVersionsIff(s: State, actions: seq<Action>, run: Run, bump: Bumps)
    requires Advances(bump) && Sound(s, bump) && Untouched(s, run)
    ensures TwoVersions(Play(s, actions, bump), run) <==>
      exists i: nat, j: nat, k: nat, c: nat, d: nat :: Overtaken(s, actions, i, j, k, c, d, run, bump)
  {
    assert actions[..|actions|] == actions;
    var last := StateAt(s, actions, |actions|, bump);
    assert actions == [] ==> last == s;
    if TwoVersions(last, run) {
      var v, w :| v != w && MarkedFor(last.dirs, run, v) && MarkedFor(last.dirs, run, w);
      var j, d := MarkedOnce(s, actions, |actions|, run, v, bump);
      var k, c := MarkedOnce(s, actions, |actions|, run, w, bump);
      if j < k {
        var i := LaterLookedBefore(s, actions, j, d, k, c, run, bump);
      } else if k < j {
        var i := LaterLookedBefore(s, actions, k, c, j, d, run, bump);
      }
    }
    if i: nat, j: nat, k: nat, c: nat, d: nat :| Overtaken(s, actions, i, j, k, c, d, run, bump) {
      OvertakenReservesTwice(s, actions, j, d, k, c, run, bump);
    }
  }

  // ---------------------------------------------------------------------------
  // A call left alone
  // ---------------------------------------------------------------------------

  /** The steps of one call that tries `n` candidates in vain. */
  function Alone(c: nat, run: Run, requested: Version, n: nat): seq<Action> {
    [Look(c, run, requested), List(c)] + Tries(c, n + 1) + [Mark(c)]
  }

  function Tries(c: nat, n: nat): seq<Action> { seq(n, _ => Try(c)) }

  lemma PlaySnoc(s: State, actions: seq<Action>, a: Action, bump: Bumps)
    ensures Play(s, actions + [a], bump) == Apply(Play(s, actions, bump), a, bump)
  {
    PlayConcat(s, actions, [a], bump);
    assert [a][1..] == [];
    var before := Play(s, actions, bump);
    assert Play(before, [a], bump) == Play(Apply(before, a, bump), [], bump);
  }

  /** The first `n` candidates are occupied, so each is bumped. */
  lemma {:induction false} TriesInVain(s: State, c: nat, run: Run, requested: Version, n: nat, bump: Bumps)
    requires var occupied := s.promoted + s.dirs.Keys;
      && c in s.calls && s.calls[c] == Trying(run, requested, occupied, occupied, requested, 0)
      && Repeated(bump, requested, n).Some?
      && forall k: nat :: k < n ==> Repeated(bump, requested, k).Some? && Repeated(bump, requested, k).value in occupied
    ensures var occupied := s.promoted + s.dirs.Keys;
      Play(s, Tries(c, n), bump) ==
        s.(calls := s.calls[c := Trying(run, requested, occupied, occupied, Repeated(bump, requested, n).value, n)])
  {
    if n == 0 {
      assert Tries(c, 0) == [];
      assert Repeated(bump, requested, 0) == Some(requested);
      assert s.calls[c := s.calls[c]] == s.calls;
    } else {
      assert Repeated(bump, requested, n - 1).Some?;
      TriesInVain(s, c, run, requested, n - 1, bump);
      assert Tries(c, n) == Tries(c, n - 1) + [Try(c)];
      PlaySnoc(s, Tries(c, n - 1), Try(c), bump);
    }
  }

  lemma LookThenList(s: State, c: nat, run: Run, requested: Version, bump: Bumps)
    requires c !in s.calls && forall v :: !MarkedFor(s.dirs, run, v)
    ensures var occupied := s.promoted + s.dirs.Keys;
      Play(s, [Look(c, run, requested), List(c)], bump) ==
        s.(calls := s.calls[c := Trying(run, requested, occupied, occupied, requested, 0)])
  {
    assert IsReservation(s.dirs, run, ReservationOf(s.dirs, run));
    PlayTwo(s, Look(c, run, requested), List(c), bump);
  }

  /**
   A call that nothing disturbs does what the undisturbed method does: it reserves the first version
   from the requested one on that is neither promoted nor reserved.
   */
  lemma AloneReservesFirstFree(s: State, c: nat, run: Run, requested: Version, v: Version, bump: Bumps)
    returns (n: nat)
    requires c !in s.calls && (forall w :: !MarkedFor(s.dirs, run, w))
    requires FirstFree(requested, s.promoted + s.dirs.Keys, v, bump)
    ensures var last := Play(s, Alone(c, run, requested, n), bump);
      && last.dirs == s.dirs[v := Some(run)] && last.promoted == s.promoted
      && c in last.calls && last.calls[c] == Reserved(run, v, true)
  {
    var occupied := s.promoted + s.dirs.Keys;
    n :|
      && Repeated(bump, requested, n) == Some(v) && v !in occupied
      && forall k: nat :: k < n ==>
          Repeated(bump, requested, k).Some? && Repeated(bump, requested, k).value in occupied;
    var listed := Play(s, [Look(c, run, requested), List(c)], bump);
    LookThenList(s, c, run, requested, bump);
    TriesInVain(listed, c, run, requested, n, bump);
    ClaimAndMark(listed, c, run, requested, n, v, bump);
    PlayConcat(s, [Look(c, run, requested), List(c)], Tries(c, n + 1) + [Mark(c)], bump);
    assert Alone(c, run, requested, n) == [Look(c, run, requested), List(c)] + (Tries(c, n + 1) + [Mark(c)]);
  }

  lemma ClaimAndMark(s: State, c: nat, run: Run, requested: Version, n: nat, v: Version, bump: Bumps)
    requires var occupied := s.promoted + s.dirs.Keys;
      && v !in occupied && c in s.calls
      && Play(s, Tries(c, n), bump) == s.(calls := s.calls[c := Trying(run, requested, occupied, occupied, v, n)])
    ensures var last := Play(s, Tries(c, n + 1) + [Mark(c)], bump);
      && last.dirs == s.dirs[v := Some(run)] && last.promoted == s.promoted
      && c in last.calls && last.calls[c] == Reserved(run, v, true)
  {
    assert Tries(c, n + 1) == Tries(c, n) + [Try(c)];
    PlaySnoc(s, Tries(c, n), Try(c), bump);
    PlaySnoc(s, Tries(c, n + 1), Mark(c), bump);
    assert s.dirs[v := None][v := Some(run)] == s.dirs[v := Some(run)];
  }
}
