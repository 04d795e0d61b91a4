/**
 Which comparison the evidence shows and in which order evidence is dropped (evidence.py,
 _visible_artifacts and _drop_candidates), in terms of times, file names and locations.
 */
module EvidenceOrder {
  import opened Wrappers
  import opened Lists
  import opened Order
  import opened Evidence
  import Text

  // ---------------------------------------------------------------------------
  // Comparisons
  // ---------------------------------------------------------------------------

  /** A run-level comparison: no owning job, the orchestrator's type, and a comparison's file name. */
  predicate Authoritative(a: ArtifactRecord, fileName: string -> string) {
    && a.jobId.None? && a.kind == "comparison"
    && ComparisonName(fileName(a.path))
  }

  predicate ComparisonName(name: string) {
    name == "comparison.json" || ("comparison-" <= name && Text.EndsWith(name, ".json"))
  }

  /** Created later, or at the same time with the greater id. */
  predicate LaterThan(a: ArtifactRecord, b: ArtifactRecord) {
    if a.createdAt == b.createdAt then StrLeq(b.artifactId, a.artifactId) && a.artifactId != b.artifactId
    else StrLeq(b.createdAt, a.createdAt)
  }

  /** The newest is authoritative, and no authoritative one is later. */
  lemma NewestIsLatest(newest: Option<ArtifactRecord>, artifacts: seq<ArtifactRecord>, fileName: string -> string,
      a: ArtifactRecord)
    requires IsNewest(newest, artifacts, fileName) && a in artifacts && Authoritative(a, fileName)
    ensures newest.Some? && newest.value in artifacts && Authoritative(newest.value, fileName)
    ensures !LaterThan(a, newest.value)
    ensures var n := newest.value;
      a.createdAt == n.createdAt || (StrLeq(a.createdAt, n.createdAt) && !StrLeq(n.createdAt, a.createdAt))
    ensures a.createdAt == newest.value.createdAt ==> StrLeq(a.artifactId, newest.value.artifactId)
  {
    assert IsAuthoritativeComparison(a, fileName);
    var n := newest.value;
    if a.createdAt != n.createdAt && StrLeq(n.createdAt, a.createdAt) {
      StrLeqAntisymmetric(a.createdAt, n.createdAt);
    }
    if a.createdAt == n.createdAt && StrLeq(n.artifactId, a.artifactId) {
      StrLeqAntisymmetric(a.artifactId, n.artifactId);
    }
  }

  /** No two artifacts have the same id. */
  ghost predicate DistinctIds(artifacts: seq<ArtifactRecord>) {
    forall a, b :: a in artifacts && b in artifacts && a.artifactId == b.artifactId ==> a == b
  }

  /**
   A phase shows exactly the artifacts whose file name it allows and, if it allows comparisons, of
   all files with a comparison's name the one authoritative comparison than which none is later.
   */
  lemma VisibleIff(newest: Option<ArtifactRecord>, artifacts: seq<ArtifactRecord>, allowed: set<string>,
      fileName: string -> string, a: ArtifactRecord)
    requires IsNewest(newest, artifacts, fileName) && DistinctIds(artifacts) && a in artifacts
    ensures a in Filter(artifacts, ShownTo(newest, allowed, fileName)) <==>
      if ComparisonName(fileName(a.path)) then
        && "comparison.json" in allowed && Authoritative(a, fileName)
        && forall b :: b in artifacts && Authoritative(b, fileName) ==> !LaterThan(b, a)
      else fileName(a.path) in allowed
  {
    var shown := ShownTo(newest, allowed, fileName);
    assert a in Filter(artifacts, shown) <==> shown(a);
    if ComparisonName(fileName(a.path)) {
      assert IsComparisonFilename(fileName(a.path));
      if Authoritative(a, fileName) {
        NewestIsLatest(newest, artifacts, fileName, a);
        forall b | b in artifacts && Authoritative(b, fileName) ensures !LaterThan(b, newest.value) {
          NewestIsLatest(newest, artifacts, fileName, b);
        }
        if a != newest.value {
          StrLeqTotal(a.createdAt, newest.value.createdAt);
          assert a.artifactId != newest.value.artifactId;
          assert LaterThan(newest.value, a);
        }
      }
    }
  }

  /** A comparison created strictly before another is never shown. */
  lemma SupersededHidden(newest: Option<ArtifactRecord>, artifacts: seq<ArtifactRecord>, allowed: set<string>,
      fileName: string -> string, a: ArtifactRecord, b: ArtifactRecord)
    requires IsNewest(newest, artifacts, fileName) && DistinctIds(artifacts) && a in artifacts && b in artifacts
    requires Authoritative(a, fileName) && Authoritative(b, fileName)
    requires a.createdAt != b.createdAt && StrLeq(a.createdAt, b.createdAt)
    ensures a !in Filter(artifacts, ShownTo(newest, allowed, fileName))
  {
    VisibleIff(newest, artifacts, allowed, fileName, a);
  }

  // ---------------------------------------------------------------------------
  // Turns
  // ---------------------------------------------------------------------------

  /** Which group a turn is dropped with. */
  function GroupOf(t: Turn, fileName: string -> string): nat {
    match t
    case ContentTurn(p) =>
      if fileName(p) in {"runner.log", "metrics.csv", "fairness.csv"} then 0
      else if fileName(p) in {"status.json", "report.md"} then 3
      else 4
    case ArtifactTurn(_) => 1
    case JobTurn(_) => 2
  }

  function KeyOfTurn(t: Turn): string {
    match t
    case ContentTurn(p) => p
    case ArtifactTurn(p) => p
    case JobTurn(i) => i
  }

  lemma GroupIsRank(t: Turn, fileName: string -> string)
    ensures Rank(t, fileName) == GroupOf(t, fileName)
  {
  }

  /** The keys of a list of turns never go down. */
  ghost predicate KeysAscend(ts: seq<Turn>) {
    forall i, j :: 0 <= i < j < |ts| ==> StrLeq(KeyOfTurn(ts[i]), KeyOfTurn(ts[j]))
  }

  lemma KeyOrder<T(!new)>(leq: (T, T) -> bool, key: T -> string)
    requires forall a, b :: leq(a, b) == StrLeq(key(a), key(b))
    ensures TotalPreorder(leq)
  {
    forall a, b ensures leq(a, b) || leq(b, a) { StrLeqTotal(key(a), key(b)); }
    forall a, b, c | leq(a, b) && leq(b, c) ensures leq(a, c) { StrLeqTransitive(key(a), key(b), key(c)); }
  }

  lemma TierAscends(contents: seq<ContentEntry>, tier: string -> bool, fileName: string -> string)
    ensures KeysAscend(TierTurns(contents, tier, fileName))
  {
    var leq := (a: ContentEntry, b: ContentEntry) => StrLeq(a.path, b.path);
    KeyOrder(leq, (c: ContentEntry) => c.path);
    SortSorts(Filter(contents, (c: ContentEntry) => tier(fileName(c.path))), leq);
  }

  lemma ArtifactsAscend(artifacts: seq<ArtifactEntry>)
    ensures KeysAscend(ArtifactTurns(artifacts))
  {
    var leq := (a: ArtifactEntry, b: ArtifactEntry) => StrLeq(a.path, b.path);
    KeyOrder(leq, (a: ArtifactEntry) => a.path);
    SortSorts(artifacts, leq);
  }

  lemma JobsAscend(jobs: seq<JobEntry>)
    ensures KeysAscend(JobTurns(jobs))
  {
    var leq := (a: JobEntry, b: JobEntry) => StrLeq(a.jobId, b.jobId);
    KeyOrder(leq, (j: JobEntry) => j.jobId);
    SortSorts(jobs, leq);
  }

  /** Group by group, and within a group by location or id. */
  ghost predicate InOrder(ts: seq<Turn>, fileName: string -> string) {
    forall i, j :: 0 <= i < j < |ts| ==>
      || GroupOf(ts[i], fileName) < GroupOf(ts[j], fileName)
      || (GroupOf(ts[i], fileName) == GroupOf(ts[j], fileName) && StrLeq(KeyOfTurn(ts[i]), KeyOfTurn(ts[j])))
  }

  ghost predicate AllInGroup(ts: seq<Turn>, fileName: string -> string, group: nat) {
    forall t :: t in ts ==> GroupOf(t, fileName) == group
  }

  ghost predicate AllBelow(ts: seq<Turn>, fileName: string -> string, group: nat) {
    forall t :: t in ts ==> GroupOf(t, fileName) < group
  }

  lemma AppendGroup(ts: seq<Turn>, us: seq<Turn>, fileName: string -> string, group: nat)
    requires InOrder(ts, fileName) && AllBelow(ts, fileName, group)
    requires KeysAscend(us) && AllInGroup(us, fileName, group)
    ensures InOrder(ts + us, fileName) && AllBelow(ts + us, fileName, group + 1)
  {
    var all := ts + us;
    forall i, j | 0 <= i < j < |all|
      ensures
        || GroupOf(all[i], fileName) < GroupOf(all[j], fileName)
        || (GroupOf(all[i], fileName) == GroupOf(all[j], fileName) && StrLeq(KeyOfTurn(all[i]), KeyOfTurn(all[j])))
    {
      if i < |ts| { assert ts[i] in ts; }
      if j >= |ts| { assert us[j - |ts|] in us; }
      if i >= |ts| { assert us[i - |ts|] in us; }
    }
  }

  lemma TierGroups(contents: seq<ContentEntry>, fileName: string -> string)
    ensures AllInGroup(TierTurns(contents, InPriority2, fileName), fileName, 0)
    ensures AllInGroup(TierTurns(contents, InPriority1, fileName), fileName, 3)
    ensures AllInGroup(TierTurns(contents, InVerbatim, fileName), fileName, 4)
  {
    forall t | t in TierTurns(contents, InPriority2, fileName) ensures GroupOf(t, fileName) == 0 {
      TierTurnsIn(contents, InPriority2, fileName, t);
      GroupIsRank(t, fileName);
    }
    forall t | t in TierTurns(contents, InPriority1, fileName) ensures GroupOf(t, fileName) == 3 {
      TierTurnsIn(contents, InPriority1, fileName, t);
      TiersApart(fileName(t.path));
      GroupIsRank(t, fileName);
    }
    forall t | t in TierTurns(contents, InVerbatim, fileName) ensures GroupOf(t, fileName) == 4 {
      TierTurnsIn(contents, InVerbatim, fileName, t);
      TiersApart(fileName(t.path));
      GroupIsRank(t, fileName);
    }
  }

  lemma OtherGroups(s: Snapshot, fileName: string -> string)
    ensures AllInGroup(ArtifactTurns(s.artifacts), fileName, 1) && AllInGroup(JobTurns(s.jobs), fileName, 2)
  {
    forall t | t in ArtifactTurns(s.artifacts) ensures GroupOf(t, fileName) == 1 { ArtifactTurnsIn(s.artifacts, t); }
    forall t | t in JobTurns(s.jobs) ensures GroupOf(t, fileName) == 2 { JobTurnsIn(s.jobs, t); }
  }

  /** Logs and tables, the inventory, the jobs, status and report, evaluator output; each by name. */
  lemma CandidatesInOrder(s: Snapshot, fileName: string -> string)
    ensures InOrder(DropCandidates(s, fileName), fileName)
  {
    var a, b, c := TierTurns(s.contents, InPriority2, fileName), ArtifactTurns(s.artifacts), JobTurns(s.jobs);
    var d, e := TierTurns(s.contents, InPriority1, fileName), TierTurns(s.contents, InVerbatim, fileName);
    TierGroups(s.contents, fileName);
    OtherGroups(s, fileName);
    TierAscends(s.contents, InPriority2, fileName);
    ArtifactsAscend(s.artifacts);
    JobsAscend(s.jobs);
    TierAscends(s.contents, InPriority1, fileName);
    TierAscends(s.contents, InVerbatim, fileName);
    assert [] + a == a;
    AppendGroup([], a, fileName, 0);
    AppendGroup(a, b, fileName, 1);
    AppendGroup(a + b, c, fileName, 2);
    AppendGroup(a + b + c, d, fileName, 3);
    AppendGroup(a + b + c + d, e, fileName, 4);
  }
}
