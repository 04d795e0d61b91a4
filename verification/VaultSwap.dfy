/**
 Replacing the active vault (secret_backup_restore.py, _replace_vault_atomically,
 restore_backup and SignalState).

 The disk is a map from the places the restore touches to whole directory trees. Every
 operating-system call either happens at once or fails and changes nothing; which calls fail,
 and at which points a signal is delivered, is up to the host. A host also remembers every
 state its disk has been in: a crash can leave any one of them behind, so a property of the
 whole trace is a property of every crash point.
 */
module VaultSwap {
  import opened Wrappers

  type Tree = map<string, seq<bv8>>

  datatype Place = Active | Staged | Rollback(name: nat)

  type Disk = map<Place, Tree>

  /**
   The host. `faults(i)` says whether the i-th call fails, `signals(i)` whether a signal is
   delivered at the i-th point at which one can be, `names` are the rollback names drawn, and
   `leftover` is what a cleanup that fails half-way leaves of the staged tree.
   */
  class Host {
    const faults: nat -> bool
    const signals: nat -> bool
    const names: nat -> nat
    const leftover: Tree
    var calls: nat
    var points: nat
    var disk: Disk
    ghost var trace: seq<Disk>

    // SignalState
    var criticalSection: bool
    var restoreCommitted: bool
    var deferred: nat

    constructor (disk: Disk, faults: nat -> bool, signals: nat -> bool, names: nat -> nat, leftover: Tree)
      ensures this.disk == disk && trace == [disk] && !criticalSection && !restoreCommitted
      ensures this.faults == faults && this.signals == signals && this.names == names && this.leftover == leftover
      ensures calls == 0 && points == 0
    {
      this.disk, this.trace := disk, [disk];
      this.faults, this.signals, this.names, this.leftover := faults, signals, names, leftover;
      calls, points, deferred := 0, 0, 0;
      criticalSection, restoreCommitted := false, false;
    }

    /** One call of the operating system that turns the disk into `next`, or fails. */
    method Call(next: Disk) returns (ok: bool)
      modifies this`calls, this`disk, this`trace
      ensures ok == !faults(old(calls)) && calls == old(calls) + 1
      ensures disk == if ok then next else old(disk)
      ensures trace == if ok then old(trace) + [next] else old(trace)
    {
      ok := !faults(calls);
      calls := calls + 1;
      if ok {
        disk := next;
        trace := trace + [next];
      }
    }

    method Rename(from: Place, to: Place) returns (ok: bool)
      requires from in disk && to !in disk
      modifies this`calls, this`disk, this`trace
      ensures ok == !faults(old(calls)) && calls == old(calls) + 1
      ensures disk == if ok then (old(disk) - {from})[to := old(disk)[from]] else old(disk)
      ensures trace == if ok then old(trace) + [disk] else old(trace)
    {
      ok := Call((disk - {from})[to := disk[from]]);
    }

    /** renameat2 with RENAME_EXCHANGE. */
    method Exchange(a: Place, b: Place) returns (ok: bool)
      requires a in disk && b in disk
      modifies this`calls, this`disk, this`trace
      ensures ok == !faults(old(calls)) && calls == old(calls) + 1
      ensures disk == if ok then old(disk)[a := old(disk)[b]][b := old(disk)[a]] else old(disk)
      ensures trace == if ok then old(trace) + [disk] else old(trace)
    {
      ok := Call(disk[a := disk[b]][b := disk[a]]);
    }

    /** The extraction: the staged tree appears, complete or not. */
    method Extract(tree: Tree) returns (ok: bool)
      modifies this`calls, this`disk, this`trace
      ensures ok == !faults(old(calls)) && calls == old(calls) + 1
      ensures disk == old(disk)[Staged := if ok then tree else leftover]
      ensures trace == old(trace) + [disk]
    {
      ok := Call(disk[Staged := tree]);
      if !ok {
        disk := disk[Staged := leftover];
        trace := trace + [disk];
      }
    }

    /** shutil.rmtree(workspace, ignore_errors=True). */
    method RemoveWorkspace()
      modifies this`calls, this`disk, this`trace
      ensures disk == old(disk) - {Staged} || disk == old(disk)[Staged := leftover]
      ensures !faults(old(calls)) ==> disk == old(disk) - {Staged}
      ensures trace == old(trace) + [disk] || trace == old(trace) + [old(disk)[Staged := leftover], disk]
    {
      ghost var before := disk;
      disk := disk[Staged := leftover];
      trace := trace + [disk];
      var ok := Call(disk - {Staged});
      assert ok ==> disk == before - {Staged};
    }

    /** A point at which a signal may be delivered; the handler defers it or raises. */
    method SignalPoint() returns (raised: bool)
      modifies this`points, this`deferred
      ensures points == old(points) + 1
      ensures raised == (signals(old(points)) && !criticalSection && !restoreCommitted)
      ensures deferred == if signals(old(points)) && !raised then old(deferred) + 1 else old(deferred)
    {
      raised := false;
      if signals(points) {
        if criticalSection || restoreCommitted {
          deferred := deferred + 1;
        } else {
          raised := true;
        }
      }
      points := points + 1;
    }

    ghost predicate NameFree(d: Disk) {
      exists i :: 0 <= i < 32 && Rollback(names(i)) !in d
    }

    /** _rollback_path: one of 32 drawn names that is not in use. */
    method RollbackName() returns (r: Option<nat>)
      ensures r.Some? ==> Rollback(r.value) !in disk
      ensures r.Some? <==> exists i :: 0 <= i < 32 && Rollback(names(i)) !in disk
      ensures r.Some? ==>
        exists i: nat :: i < 32 && r.value == names(i) && forall j :: 0 <= j < i ==> Rollback(names(j)) in disk
    {
      for i := 0 to 32
        invariant forall j :: 0 <= j < i ==> Rollback(names(j)) in disk
      {
        if Rollback(names(i)) !in disk {
          return Some(names(i));
        }
      }
      r := None;
    }

    /** Call `c` exchanges the trees, the rename to the rollback path fails, and so does the way back. */
    ghost predicate RollbackFails(d: Disk, c: nat) {
      && Active in d && NameFree(d)
      && !faults(c) && faults(c + 1) && faults(c + 2)
    }

    /** From call `c` on nothing stands in the way of the replacement. */
    ghost predicate SwapSucceeds(d: Disk, c: nat) {
      !faults(c) && (Active in d ==> NameFree(d) && !faults(c + 1))
    }

    /** _replace_vault_atomically, entered with the validated tree staged. */
    method ReplaceVault() returns (r: Replacement)
      requires Staged in disk
      modifies this`calls, this`disk, this`trace
      ensures ReplacementShape(old(disk), disk, r)
      ensures r == LeftInStaging <==> RollbackFails(old(disk), old(calls))
      ensures r.Replaced? <==> SwapSucceeds(old(disk), old(calls))
      ensures old(trace) <= trace && Current(trace[|old(trace)|..], old(disk), disk)
      ensures forall d :: d in trace[|old(trace)|..] ==>
        || d == old(disk)
        || (Active in old(disk) && d == Exchanged(old(disk)))
        || (r.Replaced? && d == disk)
    {
      if Active !in disk {
        var ok := Rename(Staged, Active);
        return if ok then Replaced(None) else Refused;
      }
      var name := RollbackName();
      if name.None? {
        return Refused;
      }
      var ok := Exchange(Staged, Active);
      if !ok {
        return Refused;
      }
      assert disk == Exchanged(old(disk));
      ok := Rename(Staged, Rollback(name.value));
      if !ok {
        ok := Exchange(Active, Staged);
        assert ok ==> disk == old(disk);
        return if ok then Refused else LeftInStaging;
      }
      assert disk == (old(disk) - {Staged})[Active := old(disk)[Staged]][Rollback(name.value) := old(disk)[Active]];
      r := Replaced(name);
    }

    /** The body of restore_backup's try statement, up to the point where the error leaves it. */
    method Attempt(extracted: Tree, valid: bool, confirmed: bool) returns (exit: Exit, lost: bool)
      requires !criticalSection && !restoreCommitted && Staged !in disk && trace == [disk]
      modifies this
      ensures exit.Restored? || exit == ManualRecovery || lost ==> valid && confirmed
      ensures lost ==> exit == Interrupted
      ensures Outcome(exit, lost, old(disk), disk, extracted)
      ensures lost <==>
        && valid && confirmed && !faults(old(calls)) && !signals(old(points))
        && RollbackFails(old(disk), old(calls) + 1) && signals(old(points) + 2)
      ensures exit.Restored? <==>
        valid && confirmed && !faults(old(calls)) && !signals(old(points)) && SwapSucceeds(old(disk), old(calls) + 1)
      ensures exit == ManualRecovery <==>
        && valid && confirmed && !faults(old(calls)) && !signals(old(points))
        && RollbackFails(old(disk), old(calls) + 1) && !signals(old(points) + 2)
      ensures exit == Interrupted <==>
        || signals(old(points))
        || (valid && confirmed && !faults(old(calls)) && !SwapSucceeds(old(disk), old(calls) + 1)
            && signals(old(points) + 2))
      ensures |trace| > 0 && trace[0] == old(disk) && trace[|trace| - 1] == disk
      ensures forall d :: d in trace ==> CrashSafe(d, old(disk), extracted)
      ensures !(valid && confirmed) ==> forall d :: d in trace ==> SameOutside(d, old(disk), {Staged})
    {
      lost := false;
      exit := Failed;
      var ok := Extract(extracted);
      var raised := SignalPoint();
      if raised {
        exit := Interrupted;
      } else if ok && valid && confirmed {
        StagedNames(old(disk), extracted, old(calls) + 1);
        exit, lost := CriticalSection(old(disk), extracted);
      }
    }

    /** The replacement with signals held off, and what follows until the error is caught. */
    method CriticalSection(ghost before: Disk, extracted: Tree) returns (exit: Exit, lost: bool)
      requires !criticalSection && !restoreCommitted
      requires Staged !in before && disk == before[Staged := extracted] && trace == [before, disk]
      modifies this
      ensures lost ==> exit == Interrupted
      ensures Outcome(exit, lost, before, disk, extracted)
      ensures lost <==> RollbackFails(old(disk), old(calls)) && signals(old(points) + 1)
      ensures exit.Restored? <==> SwapSucceeds(old(disk), old(calls))
      ensures exit == ManualRecovery <==> RollbackFails(old(disk), old(calls)) && !signals(old(points) + 1)
      ensures exit == Interrupted <==> !SwapSucceeds(old(disk), old(calls)) && signals(old(points) + 1)
      ensures old(trace) <= trace && trace[|trace| - 1] == disk
      ensures forall d :: d in trace ==> CrashSafe(d, before, extracted)
    {
      criticalSection := true;
      var r := ReplaceVault();
      if r.Replaced? {
        restoreCommitted := true;
      }
      // a signal held back by the mask is delivered here, still inside the critical section
      var _ := SignalPoint();
      criticalSection := false;
      var raised := SignalPoint();
      if raised {
        exit := Interrupted;
        lost := r == LeftInStaging;
      } else {
        lost := false;
        exit := match r
          case Replaced(rollback) => Restored(rollback)
          case Refused => Failed
          case LeftInStaging => ManualRecovery;
      }
      ReplacementOutcome(before, extracted, disk, r);
      TraceSafe(before, extracted, disk, r, trace);
    }

    lemma StagedNames(d: Disk, t: Tree, c: nat)
      ensures RollbackFails(d[Staged := t], c) == RollbackFails(d, c)
      ensures SwapSucceeds(d[Staged := t], c) == SwapSucceeds(d, c)
    {
      assert forall i :: Rollback(names(i)) in d[Staged := t] <==> Rollback(names(i)) in d;
    }

    /**
     restore_backup. `extracted` is the tree the archive unpacks to and `valid` whether every
     check on archive and tree passes. `lost` reports the one bad coincidence: a signal
     delivered after a failed rollback, before the workspace has been marked for keeping.
     */
    method Restore(extracted: Tree, valid: bool, confirmed: bool) returns (exit: Exit, lost: bool)
      requires !criticalSection && !restoreCommitted && Staged !in disk && trace == [disk]
      modifies this
      // success, exactly: nothing that the replacement needs fails, and no signal comes before it
      ensures exit.Restored? <==>
        && valid && confirmed && !faults(old(calls)) && !signals(old(points))
        && if Active in old(disk)
           then (exists i :: 0 <= i < 32 && Rollback(names(i)) !in old(disk))
                && !faults(old(calls) + 1) && !faults(old(calls) + 2)
           else !faults(old(calls) + 1)
      ensures exit.Restored? ==>
        && Active in disk && disk[Active] == extracted
        && (exit.rollback.None? <==> Active !in old(disk))
        && (exit.rollback.Some? ==>
              && Rollback(exit.rollback.value) !in old(disk)
              && Rollback(exit.rollback.value) in disk && disk[Rollback(exit.rollback.value)] == old(disk)[Active])
      // the other exits, exactly
      ensures exit == ManualRecovery <==>
        && valid && confirmed && !faults(old(calls)) && !signals(old(points))
        && Active in old(disk) && (exists i :: 0 <= i < 32 && Rollback(names(i)) !in old(disk))
        && !faults(old(calls) + 1) && faults(old(calls) + 2) && faults(old(calls) + 3) && !signals(old(points) + 2)
      ensures exit == Interrupted <==>
        !exit.Restored? && (signals(old(points)) ||
          (valid && confirmed && !faults(old(calls)) && signals(old(points) + 2)))
      ensures !exit.Restored? && exit != ManualRecovery && !lost ==> SameOutside(disk, old(disk), {Staged})
      // what each exit means, and that replacement needs a validated archive and a confirmation
      ensures Outcome(exit, lost, old(disk), disk, extracted)
      ensures exit.Restored? || exit == ManualRecovery || lost ==> valid && confirmed
      ensures !(valid && confirmed) ==> forall d :: d in trace ==> SameOutside(d, old(disk), {Staged})
      // at every crash point: the active vault is whole and the old vault exists
      ensures old(disk) in trace && disk in trace
      ensures forall d :: d in trace ==> ActiveWhole(d, old(disk), extracted) && RollbacksKept(d, old(disk))
      ensures !lost ==> forall d :: d in trace ==> OldVaultSafe(d, old(disk))
      // the exception, exactly: a signal in the gap after a rollback that could not be completed
      ensures lost <==>
        && valid && confirmed && !faults(old(calls)) && !signals(old(points))
        && RollbackFails(old(disk), old(calls) + 1) && signals(old(points) + 2)
      ensures lost ==> exit == Interrupted
      // and then the old vault is gone, unless what is left happens to have the same contents
      ensures lost ==>
        && Active in old(disk)
        && (OldVaultSafe(disk, old(disk)) <==>
              extracted == old(disk)[Active] || (Staged in disk && leftover == old(disk)[Active]))
    {
      exit, lost := Attempt(extracted, valid, confirmed);
      ghost var kept := trace;
      ghost var last := disk;
      if exit != ManualRecovery {
        RemoveWorkspace();
        CleanupSafe(exit, lost, old(disk), last, disk, extracted, leftover);
        CleanupSafe(exit, lost, old(disk), last, last[Staged := leftover], extracted, leftover);
        if exit.Restored? { Installed(exit, lost, old(disk), disk, extracted); }
        if lost { LostIff(old(disk), last, disk, extracted, leftover); }
      }
      forall d | d in trace
        ensures ActiveWhole(d, old(disk), extracted) && RollbacksKept(d, old(disk))
        ensures !lost ==> OldVaultSafe(d, old(disk))
      {
        assert d in kept || d == last[Staged := leftover] || d == disk;
      }
    }
  }

  datatype Replacement = Replaced(rollback: Option<nat>) | Refused | LeftInStaging

  datatype Exit = Restored(rollback: Option<nat>) | Failed | Interrupted | ManualRecovery

  ghost function Exchanged(d: Disk): Disk
    requires Active in d && Staged in d
  {
    d[Active := d[Staged]][Staged := d[Active]]
  }

  /** The last state of the trace is the state of the disk; no new state means no change. */
  ghost predicate Current(added: seq<Disk>, before: Disk, now: Disk) {
    if added == [] then now == before else now == added[|added| - 1]
  }

  /** The two disks agree everywhere outside `places`. */
  ghost predicate SameOutside(d: Disk, e: Disk, places: set<Place>) {
    d - places == e - places
  }

  /** The active path holds the whole old vault, or the whole new one, never anything else. */
  ghost predicate ActiveWhole(d: Disk, before: Disk, extracted: Tree) {
    if Active in before then Active in d && (d[Active] == before[Active] || d[Active] == extracted)
    else Active !in d || d[Active] == extracted
  }

  /** Rollbacks of earlier restores are left alone. */
  ghost predicate RollbacksKept(d: Disk, before: Disk) {
    forall n :: Rollback(n) in before ==> Rollback(n) in d && d[Rollback(n)] == before[Rollback(n)]
  }

  /** The old vault, if there was one, is whole at the active, a new rollback, or the staging path. */
  ghost predicate OldVaultSafe(d: Disk, before: Disk) {
    Active in before ==>
      || (Active in d && d[Active] == before[Active])
      || (Staged in d && d[Staged] == before[Active])
      || (exists n :: Rollback(n) !in before && Rollback(n) in d && d[Rollback(n)] == before[Active])
  }

  ghost predicate CrashSafe(d: Disk, before: Disk, extracted: Tree) {
    ActiveWhole(d, before, extracted) && RollbacksKept(d, before) && OldVaultSafe(d, before)
  }

  /** What the disk looks like on each exit. */
  ghost predicate Outcome(exit: Exit, lost: bool, before: Disk, now: Disk, extracted: Tree) {
    match exit
    case Restored(None) =>
      Active !in before && SameOutside(now, before[Active := extracted], {Staged})
    case Restored(Some(n)) =>
      Active in before && Rollback(n) !in before &&
      SameOutside(now, before[Active := extracted][Rollback(n) := before[Active]], {Staged})
    case ManualRecovery =>
      Active in before && now == before[Active := extracted][Staged := before[Active]]
    case _ =>
      if lost then Active in before && SameOutside(now, before[Active := extracted], {Staged})
      else SameOutside(now, before, {Staged})
  }

  ghost predicate ReplacementShape(staged: Disk, now: Disk, r: Replacement)
    requires Staged in staged
  {
    match r
    case Replaced(None) => Active !in staged && now == (staged - {Staged})[Active := staged[Staged]]
    case Replaced(Some(n)) =>
      Active in staged && Rollback(n) !in staged &&
      now == (staged - {Staged})[Active := staged[Staged]][Rollback(n) := staged[Active]]
    case Refused => now == staged
    case LeftInStaging => Active in staged && now == Exchanged(staged)
  }

  /** Every state the replacement passes through is safe, and its last one is as the exit says. */
  lemma ReplacementOutcome(before: Disk, extracted: Tree, now: Disk, r: Replacement)
    requires Staged !in before && (now == before || ReplacementShape(before[Staged := extracted], now, r))
    ensures CrashSafe(now, before, extracted)
    ensures now != before ==> match r
      case Replaced(rollback) => Outcome(Restored(rollback), false, before, now, extracted)
      case Refused => Outcome(Failed, false, before, now, extracted)
      case LeftInStaging =>
        Outcome(ManualRecovery, false, before, now, extracted) && Outcome(Interrupted, true, before, now, extracted)
  {
  }

  lemma TraceSafe(before: Disk, extracted: Tree, now: Disk, r: Replacement, trace: seq<Disk>)
    requires Staged !in before && ReplacementShape(before[Staged := extracted], now, r)
    requires [before, before[Staged := extracted]] <= trace
    requires forall d :: d in trace[2..] ==>
      || d == before[Staged := extracted]
      || (Active in before && d == Exchanged(before[Staged := extracted]))
      || (r.Replaced? && d == now)
    ensures forall d :: d in trace ==> CrashSafe(d, before, extracted)
  {
    var staged := before[Staged := extracted];
    ReplacementOutcome(before, extracted, before, Refused);
    ReplacementOutcome(before, extracted, staged, Refused);
    assert trace == [before, staged] + trace[2..];
    forall d | d in trace[2..] ensures CrashSafe(d, before, extracted) {
      ReplacementOutcome(before, extracted, d,
        if r.Replaced? && d == now then r else if d == staged then Refused else LeftInStaging);
    }
  }

  /** After a restore the new vault is active and the old one, if there was one, under its rollback name. */
  lemma Installed(exit: Exit, lost: bool, before: Disk, now: Disk, extracted: Tree)
    requires Outcome(exit, lost, before, now, extracted) && exit.Restored?
    ensures Active in now && now[Active] == extracted && (exit.rollback.None? <==> Active !in before)
    ensures exit.rollback.Some? ==>
      var r := Rollback(exit.rollback.value); r !in before && r in now && now[r] == before[Active]
  {
    assert Active in now - {Staged} && (now - {Staged})[Active] == extracted;
    if exit.rollback.Some? { assert Rollback(exit.rollback.value) in now - {Staged}; }
  }

  /** Cleaning up the workspace is harmless on every exit that does not leave the old vault in it. */
  lemma CleanupSafe(exit: Exit, lost: bool, before: Disk, last: Disk, now: Disk, extracted: Tree, leftover: Tree)
    requires Outcome(exit, lost, before, last, extracted) && exit != ManualRecovery
    requires now == last - {Staged} || now == last[Staged := leftover]
    ensures Outcome(exit, lost, before, now, extracted)
    ensures ActiveWhole(now, before, extracted) && RollbacksKept(now, before)
    ensures !lost ==> OldVaultSafe(now, before)
  {
    assert now - {Staged} == last - {Staged};
    var d := now - {Staged};
    assert forall p :: p != Staged ==> (p in d <==> p in now) && (p in d ==> d[p] == now[p]);
    assert forall p :: p != Staged && p in before ==> p in before - {Staged};
  }

  /** After the bad coincidence nothing has the contents of the old vault, but by chance. */
  lemma LostIff(before: Disk, last: Disk, now: Disk, extracted: Tree, leftover: Tree)
    requires Active in before && SameOutside(last, before[Active := extracted], {Staged})
    requires now == last - {Staged} || now == last[Staged := leftover]
    ensures OldVaultSafe(now, before) <==> extracted == before[Active] || (Staged in now && leftover == before[Active])
  {
    var d, e := last - {Staged}, before[Active := extracted] - {Staged};
    assert d == e && now - {Staged} == d;
    assert forall p :: p != Staged ==> (p in d <==> p in now) && (p in d ==> d[p] == now[p]);
    assert forall p :: p != Staged ==> (p in e <==> p in before[Active := extracted]);
    assert Active in e && e[Active] == extracted;
    forall n | Rollback(n) !in before ensures Rollback(n) !in now { assert Rollback(n) !in e; }
  }

  /**
   The coincidence at a concrete host: the exchange succeeds, the two calls after it fail, and the
   third signal point delivers a signal.
   */
  method LoseOldVault(vault: Tree, extracted: Tree) returns (host: Host, exit: Exit)
    requires vault != extracted
    ensures exit == Interrupted && !OldVaultSafe(host.disk, map[Active := vault])
  {
    host := new Host(map[Active := vault], i => i == 2 || i == 3, i => i == 2, i => i, extracted);
    assert Rollback(host.names(0)) !in host.disk;
    var lost;
    exit, lost := host.Restore(extracted, true, true);
    assert lost;
  }
}
