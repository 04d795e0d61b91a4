/**
 Reserving a free version for a contract candidate (contract_candidates.py, allocate_version): the
 claim is one atomic directory create, the run's marker is written afterwards, and any number of
 calls may be interleaved between any two of their steps.
 */
module VersionAllocation {
  import opened Wrappers
  import opened Order
  import opened SemanticVersion

  type Version = string

  type Run = string

  /** Reservation directories; `None` while the marker file is missing. */
  type Directories = map<Version, Option<Run>>

  predicate MarkedFor(dirs: Directories, run: Run, v: Version) { v in dirs && dirs[v] == Some(run) }

  /** The first directory, in name order, whose marker names the run. */
  ghost predicate IsReservation(dirs: Directories, run: Run, r: Option<Version>) {
    match r
    case None => forall v :: !MarkedFor(dirs, run, v)
    case Some(v) => MarkedFor(dirs, run, v) && forall w :: MarkedFor(dirs, run, w) ==> StrLeq(v, w)
  }

  // ---------------------------------------------------------------------------
  // One undisturbed call
  // ---------------------------------------------------------------------------

  class Reservations {
    var dirs: Directories
    var promoted: set<Version>

    constructor ()
      ensures dirs == map[] && promoted == {}
    {
      dirs, promoted := map[], {};
    }

    method RunReservation(run: Run) returns (r: Option<Version>)
      ensures IsReservation(dirs, run, r)
    {
      r := None;
      var rest := dirs.Keys;
      while rest != {}
        invariant rest <= dirs.Keys
        invariant IsReservation(map v | v in dirs && v !in rest :: dirs[v], run, r)
        decreases rest
      {
        var v :| v in rest;
        ReservationNext(dirs, rest, run, r, v);
        if dirs[v] == Some(run) && (r.None? || StrLeq(v, r.value)) {
          r := Some(v);
        }
        rest := rest - {v};
      }
      assert (map v | v in dirs && v !in rest :: dirs[v]) == dirs;
    }

    /** A run gets its reservation back, and otherwise the first free version from the requested one on. */
    method AllocateVersion(requested: Version, run: Run) returns (r: Option<(Version, bool)>)
      modifies this`dirs
      ensures r.None? ==> dirs == old(dirs)
      ensures r.None? <==>
        IsReservation(old(dirs), run, None) && requested in promoted + old(dirs).Keys && Parse(requested) == None
      ensures r.Some? && !r.value.1 ==> dirs == old(dirs) && IsReservation(dirs, run, Some(r.value.0))
      ensures r.Some? && r.value.1 ==>
        && IsReservation(old(dirs), run, None) && dirs == old(dirs)[r.value.0 := Some(run)]
        && FirstFree(requested, promoted + old(dirs).Keys, r.value.0, Bumper())
    {
      var existing := RunReservation(run);
      if existing.Some? {
        return Some((existing.value, false));
      }
      BumperAdvances();
      var free := FreeVersion(requested, promoted + dirs.Keys, Bumper());
      if free.None? {
        return None;
      }
      dirs := dirs[free.value := None];
      dirs := dirs[free.value := Some(run)];
      r := Some((free.value, true));
    }
  }

  // ---------------------------------------------------------------------------
  // The search
  // ---------------------------------------------------------------------------

  type Bumps = Version -> Option<Version>

  /** No version comes back, and one that can be bumped at all can be bumped forever. */
  ghost predicate Advances(bump: Bumps) {
    && (forall v, m: nat, n: nat :: m < n && Repeated(bump, v, n).Some? ==>
          Repeated(bump, v, m).Some? && Repeated(bump, v, m) != Repeated(bump, v, n))
    && (forall v, n: nat :: bump(v).Some? ==> Repeated(bump, v, n).Some?)
  }

  lemma BumperAdvances()
    ensures Advances(Bumper())
  {
    forall v, m: nat, n: nat | m < n && Repeated(Bumper(), v, n).Some?
      ensures Repeated(Bumper(), v, m).Some? && Repeated(Bumper(), v, m) != Repeated(Bumper(), v, n)
    {
      BumpedDistinct(v, m, n);
    }
    forall v, n: nat | Bumper()(v).Some? ensures Repeated(Bumper(), v, n).Some? {
      CanBumpForever(v, n);
    }
  }

  lemma CanBumpForever(v: Version, n: nat)
    requires Bump(v).Some?
    ensures Bumped(v, n).Some?
  {
    if n > 0 { BumpedSemantic(v, Parse(v).value, n); }
  }

  /** `v` is what the fewest bumps of `requested` make that is not occupied. */
  ghost predicate FirstFree(requested: Version, occupied: set<Version>, v: Version, bump: Bumps) {
    exists n: nat :: Repeated(bump, requested, n) == Some(v) && v !in occupied
      && forall k: nat :: k < n ==> Repeated(bump, requested, k).Some? && Repeated(bump, requested, k).value in occupied
  }

  /** The loop of allocate_version while no one else creates directories. */
  method FreeVersion(requested: Version, occupied: set<Version>, bump: Bumps) returns (r: Option<Version>)
    requires Advances(bump)
    ensures r.None? <==> requested in occupied && bump(requested) == None
    ensures r.Some? ==> FirstFree(requested, occupied, r.value, bump)
  {
    var candidate := requested;
    ghost var n, rest := 0, occupied;
    while candidate in occupied
      invariant Searching(requested, occupied, n, candidate, rest, bump)
      decreases rest
    {
      var next := bump(candidate);
      SearchNext(requested, occupied, n, candidate, rest, bump);
      if next.None? {
        return None;
      }
      rest := rest - {candidate};
      candidate, n := next.value, n + 1;
    }
    r := Some(candidate);
    FoundMeansFree(requested, occupied, n, candidate, rest, bump);
  }

  /** The first `n` candidates were occupied; `rest` is what is occupied and was not met yet. */
  ghost predicate Searching(requested: Version, occupied: set<Version>, n: nat, candidate: Version, rest: set<Version>,
      bump: Bumps)
  {
    && Repeated(bump, requested, n) == Some(candidate)
    && (forall k: nat :: k < n ==> Repeated(bump, requested, k).Some? && Repeated(bump, requested, k).value in occupied)
    && rest <= occupied
    && forall v :: v in occupied && v !in rest ==> exists k: nat :: k < n && Repeated(bump, requested, k) == Some(v)
  }

  lemma SearchNext(requested: Version, occupied: set<Version>, n: nat, candidate: Version, rest: set<Version>,
      bump: Bumps)
    requires Advances(bump) && Searching(requested, occupied, n, candidate, rest, bump) && candidate in occupied
    ensures candidate in rest
    ensures match bump(candidate)
      case None => n == 0 && bump(requested) == None
      case Some(next) =>
        Searching(requested, occupied, n + 1, next, rest - {candidate}, bump)
        && bump(requested).Some?
  {
    assert Repeated(bump, requested, n + 1) == bump(candidate);
    assert Repeated(bump, requested, 0) == Some(requested);
    forall k: nat | k < n ensures Repeated(bump, requested, k) != Some(candidate) {
      assert Repeated(bump, requested, n).Some?;
    }
    if bump(candidate).Some? {
      if n > 0 { assert Repeated(bump, requested, 1) == bump(requested); BumpedSooner(requested, n, bump); }
    }
  }

  lemma {:induction false} BumpedSooner(v: Version, n: nat, bump: Bumps)
    requires n >= 1 && Repeated(bump, v, n).Some?
    ensures bump(v).Some?
  {
    if n == 1 {
      assert Repeated(bump, v, 0) == Some(v);
    } else {
      BumpedSooner(v, n - 1, bump);
    }
  }

  lemma FoundMeansFree(requested: Version, occupied: set<Version>, n: nat, candidate: Version, rest: set<Version>,
      bump: Bumps)
    requires Searching(requested, occupied, n, candidate, rest, bump) && candidate !in occupied
    ensures FirstFree(requested, occupied, candidate, bump)
    ensures requested in occupied ==> bump(requested).Some?
  {
    assert Repeated(bump, requested, 0) == Some(requested);
    if n > 0 { BumpedSooner(requested, n, bump); }
  }

  lemma ReservationNext(dirs: Directories, rest: set<Version>, run: Run, r: Option<Version>, v: Version)
    requires v in rest && rest <= dirs.Keys
    requires IsReservation(map u | u in dirs && u !in rest :: dirs[u], run, r)
    ensures IsReservation(map u | u in dirs && u !in rest - {v} :: dirs[u], run,
      if dirs[v] == Some(run) && (r.None? || StrLeq(v, r.value)) then Some(v) else r)
  {
    var before := map u | u in dirs && u !in rest :: dirs[u];
    var after := map u | u in dirs && u !in rest - {v} :: dirs[u];
    forall u | u != v ensures MarkedFor(after, run, u) <==> MarkedFor(before, run, u) {
    }
    assert !MarkedFor(before, run, v) && (MarkedFor(after, run, v) <==> dirs[v] == Some(run));
    StrLeqTotal(v, v);
    if r.Some? {
      StrLeqTotal(v, r.value);
      forall w | MarkedFor(before, run, w) && StrLeq(v, r.value) ensures StrLeq(v, w) {
        StrLeqTransitive(v, r.value, w);
      }
    }
  }


  // ---------------------------------------------------------------------------
  // Interleaved calls
  // ---------------------------------------------------------------------------

  /**
   Where a call stands. `listed` is what was occupied when it listed the directories; `occupied`
   grows with every create it loses.
   */
  datatype Phase =
    | Looked(run: Run, requested: Version)
    | Trying(run: Run, requested: Version, listed: set<Version>, occupied: set<Version>, candidate: Version, bumps: nat)
    | Claimed(run: Run, version: Version, listed: set<Version>)
    | Reserved(run: Run, version: Version, newly: bool)
    | Failed(run: Run)

  datatype State = State(dirs: Directories, promoted: set<Version>, calls: map<nat, Phase>)

  datatype Action =
    | Look(call: nat, run: Run, requested: Version)
    | List(call: nat)
    | Try(call: nat)
    | Mark(call: nat)
    | Crash(call: nat)
    | Promote(version: Version)

  lemma {:induction false} LeastExists(s: set<Version>) returns (v: Version)
    requires s != {}
    ensures v in s && forall w :: w in s ==> StrLeq(v, w)
    decreases s
  {
    v :| v in s;
    StrLeqTotal(v, v);
    if s != {v} {
      var u := LeastExists(s - {v});
      StrLeqTotal(u, v);
      if StrLeq(u, v) {
        v := u;
      } else {
        forall w | w in s ensures StrLeq(v, w) {
          if w != v { StrLeqTransitive(v, u, w); }
        }
      }
    }
  }

  lemma ReservationExists(dirs: Directories, run: Run)
    ensures exists r :: IsReservation(dirs, run, r)
  {
    var marked := set v | v in dirs && dirs[v] == Some(run);
    if marked == {} {
      forall v ensures !MarkedFor(dirs, run, v) { assert v !in marked; }
      assert IsReservation(dirs, run, None);
    } else {
      var v := LeastExists(marked);
      forall w | MarkedFor(dirs, run, w) ensures StrLeq(v, w) { assert w in marked; }
      assert IsReservation(dirs, run, Some(v));
    }
  }

  ghost function ReservationOf(dirs: Directories, run: Run): (r: Option<Version>)
    ensures IsReservation(dirs, run, r)
  {
    ReservationExists(dirs, run);
    var r :| IsReservation(dirs, run, r);
    r
  }

  function Bumping(p: Phase, occupied: set<Version>, bump: Bumps): Phase
    requires p.Trying?
  {
    match bump(p.candidate)
    case None => Failed(p.run)
    case Some(next) => Trying(p.run, p.requested, p.listed, occupied, next, p.bumps + 1)
  }

  /** One step of one call, or of the world; a step that is not due changes nothing. */
  ghost function Apply(s: State, a: Action, bump: Bumps): State {
    match a
    case Look(c, run, requested) =>
      if c in s.calls then s
      else
        var existing := ReservationOf(s.dirs, run);
        var p := if existing.Some? then Reserved(run, existing.value, false) else Looked(run, requested);
        s.(calls := s.calls[c := p])
    case List(c) =>
      if c !in s.calls || !s.calls[c].Looked? then s
      else
        var p, occupied := s.calls[c], s.promoted + s.dirs.Keys;
        s.(calls := s.calls[c := Trying(p.run, p.requested, occupied, occupied, p.requested, 0)])
    case Try(c) =>
      if c !in s.calls || !s.calls[c].Trying? then s
      else
        var p := s.calls[c];
        if p.candidate in p.occupied then s.(calls := s.calls[c := Bumping(p, p.occupied, bump)])
        else if p.candidate in s.dirs then s.(calls := s.calls[c := Bumping(p, p.occupied + {p.candidate}, bump)])
        else s.(dirs := s.dirs[p.candidate := None], calls := s.calls[c := Claimed(p.run, p.candidate, p.listed)])
    case Mark(c) =>
      if c !in s.calls || !s.calls[c].Claimed? then s
      else
        var p := s.calls[c];
        s.(dirs := s.dirs[p.version := Some(p.run)], calls := s.calls[c := Reserved(p.run, p.version, true)])
    case Crash(c) => s.(calls := s.calls - {c})
    case Promote(v) => s.(promoted := s.promoted + {v})
  }

  ghost function Play(s: State, actions: seq<Action>, bump: Bumps): State
    decreases |actions|
  {
    if actions == [] then s else Play(Apply(s, actions[0], bump), actions[1..], bump)
  }

  /** What a call in this phase may rely on. */
  ghost predicate PhaseSound(s: State, p: Phase, bump: Bumps) {
    match p
    case Looked(_, _) => true
    case Trying(_, requested, listed, occupied, candidate, bumps) =>
      && Repeated(bump, requested, bumps) == Some(candidate)
      && listed <= occupied <= listed + s.dirs.Keys
      && forall k: nat :: k < bumps ==>
        Repeated(bump, requested, k).Some? && Repeated(bump, requested, k).value in occupied
    case Claimed(_, v, listed) => v in s.dirs && s.dirs[v] == None && v !in listed
    case Reserved(run, v, _) => MarkedFor(s.dirs, run, v)
    case Failed(_) => true
  }

  /** No two calls have claimed one directory, and every call stands on solid ground. */
  ghost predicate Sound(s: State, bump: Bumps) {
    && (forall c :: c in s.calls ==> PhaseSound(s, s.calls[c], bump))
    && (forall c, d :: c in s.calls && d in s.calls && c != d && s.calls[c].Claimed? && s.calls[d].Claimed? ==>
          s.calls[c].version != s.calls[d].version)
  }

  /** Directories are never removed and markers never overwritten. */
  ghost predicate Grows(s: State, next: State) {
    && s.dirs.Keys <= next.dirs.Keys
    && forall v :: v in s.dirs && s.dirs[v].Some? ==> next.dirs[v] == s.dirs[v]
  }

  lemma TryStep(s: State, c: nat, bump: Bumps)
    requires Advances(bump) && Sound(s, bump) && c in s.calls && s.calls[c].Trying?
    ensures var next := Apply(s, Try(c), bump); Sound(next, bump) && Grows(s, next)
  {
    var p := s.calls[c];
    var next := Apply(s, Try(c), bump);
    assert PhaseSound(s, p, bump);
    assert Repeated(bump, p.requested, p.bumps + 1) == bump(p.candidate);
    forall d | d in next.calls ensures PhaseSound(next, next.calls[d], bump) {
      if d != c { assert PhaseSound(s, s.calls[d], bump); }
    }
    forall d | d in s.calls && s.calls[d].Claimed? && p.candidate !in s.dirs ensures s.calls[d].version != p.candidate {
      assert PhaseSound(s, s.calls[d], bump);
    }
  }

  lemma MarkStep(s: State, c: nat, bump: Bumps)
    requires Sound(s, bump) && c in s.calls && s.calls[c].Claimed?
    ensures var next := Apply(s, Mark(c), bump); Sound(next, bump) && Grows(s, next)
  {
    var p := s.calls[c];
    var next := Apply(s, Mark(c), bump);
    assert PhaseSound(s, p, bump);
    forall d | d in next.calls ensures PhaseSound(next, next.calls[d], bump) {
      if d != c { assert PhaseSound(s, s.calls[d], bump); }
    }
  }

  lemma OtherStep(s: State, a: Action, bump: Bumps)
    requires Sound(s, bump) && !a.Try? && !a.Mark?
    ensures var next := Apply(s, a, bump); Sound(next, bump) && Grows(s, next)
  {
    var next := Apply(s, a, bump);
    assert next.dirs == s.dirs;
    forall d | d in next.calls ensures PhaseSound(next, next.calls[d], bump) {
      if d in s.calls && next.calls[d] == s.calls[d] { assert PhaseSound(s, s.calls[d], bump); }
    }
  }

  lemma StepSound(s: State, a: Action, bump: Bumps)
    requires Advances(bump) && Sound(s, bump)
    ensures Sound(Apply(s, a, bump), bump) && Grows(s, Apply(s, a, bump))
  {
    match a
    case Try(c) => if c in s.calls && s.calls[c].Trying? { TryStep(s, c, bump); }
    case Mark(c) => if c in s.calls && s.calls[c].Claimed? { MarkStep(s, c, bump); }
    case _ => OtherStep(s, a, bump);
  }

  lemma {:induction false} PlaySound(s: State, actions: seq<Action>, bump: Bumps)
    requires Advances(bump) && Sound(s, bump)
    ensures Sound(Play(s, actions, bump), bump) && Grows(s, Play(s, actions, bump))
    decreases |actions|
  {
    if actions != [] {
      StepSound(s, actions[0], bump);
      PlaySound(Apply(s, actions[0], bump), actions[1..], bump);
    }
  }

  /** However calls are interleaved and wherever they crash, no version is reserved by two runs. */
  lemma NoSharedVersion(dirs: Directories, promoted: set<Version>, actions: seq<Action>, c: nat, d: nat)
    requires var s := Play(State(dirs, promoted, map[]), actions, Bumper());
      && c in s.calls && d in s.calls && s.calls[c].Reserved? && s.calls[d].Reserved?
      && s.calls[c].version == s.calls[d].version
    ensures var s := Play(State(dirs, promoted, map[]), actions, Bumper());
      s.calls[c].run == s.calls[d].run
  {
    BumperAdvances();
    PlaySound(State(dirs, promoted, map[]), actions, Bumper());
    var s := Play(State(dirs, promoted, map[]), actions, Bumper());
    assert PhaseSound(s, s.calls[c], Bumper()) && PhaseSound(s, s.calls[d], Bumper());
  }

  /** A run that has a reservation is given one it has, by every later call and for ever. */
  lemma RecordedIsReturned(s: State, run: Run, v: Version, actions: seq<Action>, c: nat, requested: Version)
    requires Sound(s, Bumper()) && MarkedFor(s.dirs, run, v) && c !in Play(s, actions, Bumper()).calls
    ensures var last := Apply(Play(s, actions, Bumper()), Look(c, run, requested), Bumper());
      && last.calls[c].Reserved? && !last.calls[c].newly
      && MarkedFor(last.dirs, run, last.calls[c].version) && StrLeq(last.calls[c].version, v)
  {
    BumperAdvances();
    PlaySound(s, actions, Bumper());
    var before := Play(s, actions, Bumper());
    assert MarkedFor(before.dirs, run, v);
    assert IsReservation(before.dirs, run, ReservationOf(before.dirs, run));
  }

  lemma {:induction false} Pigeonhole(f: nat -> Version, n: nat, s: set<Version>)
    requires forall k: nat :: k < n ==> f(k) in s
    requires forall j: nat, k: nat :: j < k < n ==> f(j) != f(k)
    ensures n <= |s|
  {
    if n > 0 {
      forall k: nat | k < n - 1 ensures f(k) in s - {f(n - 1)} {
      }
      Pigeonhole(f, n - 1, s - {f(n - 1)});
    }
  }

  /** A call cannot bump more often than there are occupied versions, so every search ends. */
  lemma BumpsBounded(s: State, c: nat, bump: Bumps)
    requires Advances(bump) && Sound(s, bump) && c in s.calls && s.calls[c].Trying?
    ensures s.calls[c].bumps <= |s.calls[c].listed + s.dirs.Keys|
  {
    var p := s.calls[c];
    assert PhaseSound(s, p, bump);
    var f := (k: nat) => match Repeated(bump, p.requested, k) case Some(v) => v case None => "";
    forall j: nat, k: nat | j < k < p.bumps ensures f(j) != f(k) {
      assert Repeated(bump, p.requested, k).Some?;
    }
    forall k: nat | k < p.bumps ensures f(k) in p.listed + s.dirs.Keys {
      assert Repeated(bump, p.requested, k).value in p.occupied;
    }
    Pigeonhole(f, p.bumps, p.listed + s.dirs.Keys);
  }

  // ---------------------------------------------------------------------------
  // One version per run
  // ---------------------------------------------------------------------------

  predicate Active(p: Phase) { p.Looked? || p.Trying? || p.Claimed? }

  /** A call for `run` is under way. */
  ghost predicate Busy(s: State, run: Run) {
    exists c :: c in s.calls && Active(s.calls[c]) && s.calls[c].run == run
  }

  /** At most one reservation or one call under way, for every run. */
  ghost predicate OneEach(s: State) {
    && (forall v, w, run :: MarkedFor(s.dirs, run, v) && MarkedFor(s.dirs, run, w) ==> v == w)
    && (forall c, d :: c in s.calls && d in s.calls && Active(s.calls[c]) && Active(s.calls[d]) && c != d ==>
          s.calls[c].run != s.calls[d].run)
    && (forall c, v :: c in s.calls && Active(s.calls[c]) ==> !MarkedFor(s.dirs, s.calls[c].run, v))
  }

  /** No call starts for a run that has one under way. */
  ghost predicate Disciplined(s: State, actions: seq<Action>, bump: Bumps)
    decreases |actions|
  {
    actions == [] ||
      ((actions[0].Look? ==> !Busy(s, actions[0].run)) && Disciplined(Apply(s, actions[0], bump), actions[1..], bump))
  }

  lemma LookOneEach(s: State, c: nat, run: Run, requested: Version, bump: Bumps)
    requires OneEach(s) && !Busy(s, run) && c !in s.calls
    ensures OneEach(Apply(s, Look(c, run, requested), bump))
  {
    assert IsReservation(s.dirs, run, ReservationOf(s.dirs, run));
    forall d | d in s.calls && Active(s.calls[d]) ensures s.calls[d].run != run {
    }
  }

  lemma MarkOneEach(s: State, c: nat, bump: Bumps)
    requires Sound(s, bump) && OneEach(s) && c in s.calls && s.calls[c].Claimed?
    ensures OneEach(Apply(s, Mark(c), bump))
  {
    var next, p := Apply(s, Mark(c), bump), s.calls[c];
    assert PhaseSound(s, p, bump);
    forall v, run
      ensures MarkedFor(next.dirs, run, v) <==> MarkedFor(s.dirs, run, v) || (run == p.run && v == p.version)
    {
    }
  }

  lemma SameMarksOneEach(s: State, next: State)
    requires OneEach(s) && forall v, run :: MarkedFor(next.dirs, run, v) <==> MarkedFor(s.dirs, run, v)
    requires forall c :: c in next.calls && Active(next.calls[c]) ==>
      c in s.calls && Active(s.calls[c]) && next.calls[c].run == s.calls[c].run
    ensures OneEach(next)
  {
  }

  lemma StepOneEach(s: State, a: Action, bump: Bumps)
    requires Sound(s, bump) && OneEach(s) && (a.Look? ==> !Busy(s, a.run))
    ensures OneEach(Apply(s, a, bump))
  {
    if a.Look? {
      if a.call !in s.calls { LookOneEach(s, a.call, a.run, a.requested, bump); }
    } else if a.Mark? && a.call in s.calls && s.calls[a.call].Claimed? {
      MarkOneEach(s, a.call, bump);
    } else {
      SameMarksOneEach(s, Apply(s, a, bump));
    }
  }

  /** Where calls for one run do not overlap, crashes included, the run never holds two versions. */
  lemma {:induction false} OneVersionPerRun(s: State, actions: seq<Action>, bump: Bumps)
    requires Advances(bump) && Sound(s, bump) && OneEach(s) && Disciplined(s, actions, bump)
    ensures OneEach(Play(s, actions, bump))
    decreases |actions|
  {
    if actions != [] {
      StepSound(s, actions[0], bump);
      StepOneEach(s, actions[0], bump);
      OneVersionPerRun(Apply(s, actions[0], bump), actions[1..], bump);
    }
  }

  lemma {:induction false} PlayConcat(s: State, first: seq<Action>, second: seq<Action>, bump: Bumps)
    ensures Play(s, first + second, bump) == Play(Play(s, first, bump), second, bump)
    decreases |first|
  {
    if first == [] {
      assert first + second == second;
    } else {
      assert (first + second)[1..] == first[1..] + second;
      PlayConcat(Apply(s, first[0], bump), first[1..], second, bump);
    }
  }

  lemma PlayTwo(s: State, a: Action, b: Action, bump: Bumps)
    ensures Play(s, [a, b], bump) == Apply(Apply(s, a, bump), b, bump)
  {
    assert [a, b][1..] == [b] && [b][1..] == [];
    assert Play(Apply(s, a, bump), [b], bump) == Play(Apply(Apply(s, a, bump), b, bump), [], bump);
  }

  lemma BothLook(run: Run, v: Version, bump: Bumps)
    ensures Play(State(map[], {}, map[]), [Look(0, run, v), Look(1, run, v)], bump) ==
      State(map[], {}, map[0 := Looked(run, v), 1 := Looked(run, v)])
  {
    var empty: Directories := map[];
    assert IsReservation(empty, run, ReservationOf(empty, run));
    PlayTwo(State(map[], {}, map[]), Look(0, run, v), Look(1, run, v), bump);
  }

  lemma BothList(run: Run, v: Version, bump: Bumps)
    ensures Play(State(map[], {}, map[0 := Looked(run, v), 1 := Looked(run, v)]), [List(0), List(1)], bump) ==
      State(map[], {}, map[0 := Trying(run, v, {}, {}, v, 0), 1 := Trying(run, v, {}, {}, v, 0)])
  {
    var s := State(map[], {}, map[0 := Looked(run, v), 1 := Looked(run, v)]);
    PlayTwo(s, List(0), List(1), bump);
    assert s.promoted + s.dirs.Keys == {};
    var mid := State(map[], {}, map[0 := Trying(run, v, {}, {}, v, 0), 1 := Looked(run, v)]);
    assert Apply(s, List(0), bump) == mid;
    assert mid.promoted + mid.dirs.Keys == {};
  }

  lemma OneWins(run: Run, v: Version, w: Version, bump: Bumps)
    requires bump(v) == Some(w)
    ensures Play(State(map[], {}, map[0 := Trying(run, v, {}, {}, v, 0), 1 := Trying(run, v, {}, {}, v, 0)]),
        [Try(0), Try(1)], bump) ==
      State(map[v := None], {}, map[0 := Claimed(run, v, {}), 1 := Trying(run, v, {}, {v}, w, 1)])
  {
    var s := State(map[], {}, map[0 := Trying(run, v, {}, {}, v, 0), 1 := Trying(run, v, {}, {}, v, 0)]);
    PlayTwo(s, Try(0), Try(1), bump);
    var mid := State(map[v := None], {}, map[0 := Claimed(run, v, {}), 1 := Trying(run, v, {}, {}, v, 0)]);
    assert Apply(s, Try(0), bump) == mid;
    assert {} + {v} == {v};
  }

  lemma OtherGoesOn(run: Run, v: Version, w: Version, bump: Bumps)
    requires v != w
    ensures Play(State(map[v := None], {}, map[0 := Claimed(run, v, {}), 1 := Trying(run, v, {}, {v}, w, 1)]),
        [Try(1), Mark(0)], bump) ==
      State(map[v := Some(run), w := None], {}, map[0 := Reserved(run, v, true), 1 := Claimed(run, w, {})])
  {
    var s := State(map[v := None], {}, map[0 := Claimed(run, v, {}), 1 := Trying(run, v, {}, {v}, w, 1)]);
    PlayTwo(s, Try(1), Mark(0), bump);
    var mid := State(map[v := None, w := None], {}, map[0 := Claimed(run, v, {}), 1 := Claimed(run, w, {})]);
    assert Apply(s, Try(1), bump) == mid;
  }

  /** Two overlapping calls of one run leave it with two versions. */
  lemma OverlapReservesTwice(run: Run, v: Version, w: Version, bump: Bumps)
    requires bump(v) == Some(w) && v != w
    ensures
      var race :=
        [Look(0, run, v), Look(1, run, v)] + [List(0), List(1)] + [Try(0), Try(1)] + [Try(1), Mark(0)] + [Mark(1)];
      var last := Play(State(map[], {}, map[]), race, bump);
      MarkedFor(last.dirs, run, v) && MarkedFor(last.dirs, run, w)
  {
    var s := State(map[], {}, map[]);
    var a, b, c, d := [Look(0, run, v), Look(1, run, v)], [List(0), List(1)], [Try(0), Try(1)], [Try(1), Mark(0)];
    PlayConcat(s, a + b + c + d, [Mark(1)], bump);
    PlayConcat(s, a + b + c, d, bump);
    PlayConcat(s, a + b, c, bump);
    PlayConcat(s, a, b, bump);
    BothLook(run, v, bump);
    BothList(run, v, bump);
    OneWins(run, v, w, bump);
    OtherGoesOn(run, v, w, bump);
    LastMark(Play(s, a + b + c + d, bump), bump);
  }

  lemma LastMark(s: State, bump: Bumps)
    requires 1 in s.calls && s.calls[1].Claimed?
    ensures Play(s, [Mark(1)], bump).dirs == s.dirs[s.calls[1].version := Some(s.calls[1].run)]
  {
    assert [Mark(1)][1..] == [];
    assert Play(s, [Mark(1)], bump) == Play(Apply(s, Mark(1), bump), [], bump);
  }
}
