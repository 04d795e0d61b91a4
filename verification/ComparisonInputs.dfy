/**
 The inputs of the cross-job comparison (comparison_checks.py): the newest submission wave, the
 evaluation artifacts of each job, and the digest of both.
 */
module ComparisonInputs {
  import opened Wrappers
  import opened Order
  import opened Lists
  import Decimal
  import Text

  /** A JSON value; a number is kept as the text `str` gives it. */
  datatype Json =
    | Null
    | Bool(truth: bool)
    | Number(digits: string)
    | Str(text: string)
    | Array(items: seq<Json>)
    | Object(fields: map<string, Json>)

  datatype Status = Queued | Submitting | Running | Succeeded | Failed | Cancelled | Unknown

  datatype Binding = Binding(id: string, version: string, digest: string)

  datatype Job = Job(jobId: string, actionId: string, createdAt: int, status: Status, contract: Binding,
                     variantName: string, seed: int, baseConfig: string, overrides: map<string, Json>)

  /** Only the fields the comparison reads. */
  datatype Artifact = Artifact(jobId: Option<string>, uri: string, sha: string)

  const EVALUATION_FILENAME := "evaluation.json"

  // ---------------------------------------------------------------------------
  // The newest wave
  // ---------------------------------------------------------------------------

  predicate JobLeq(a: Job, b: Job) {
    a.createdAt < b.createdAt || (a.createdAt == b.createdAt && StrLeq(a.jobId, b.jobId))
  }

  /** `max(jobs, key=...)`: the first of the greatest. */
  function Latest(jobs: seq<Job>): (j: Job)
    requires jobs != []
    ensures j in jobs
  {
    if |jobs| == 1 then jobs[0]
    else
      var before, last := Latest(jobs[..|jobs| - 1]), jobs[|jobs| - 1];
      if JobLeq(last, before) then before else last
  }

  function ById(): (Job, Job) -> bool { (a: Job, b: Job) => StrLeq(a.jobId, b.jobId) }

  function OfAction(actionId: string): Job -> bool { (j: Job) => j.actionId == actionId }

  /** latest_submission_jobs. */
  function LatestWave(jobs: seq<Job>): seq<Job> {
    if jobs == [] then []
    else Sort(Filter(jobs, OfAction(Latest(jobs).actionId)), ById())
  }

  ghost predicate IdsIdentify(jobs: seq<Job>) {
    forall x, y :: x in jobs && y in jobs && x.jobId == y.jobId ==> x == y
  }

  lemma JobLeqTransitive(a: Job, b: Job, c: Job)
    requires JobLeq(a, b) && JobLeq(b, c)
    ensures JobLeq(a, c)
  {
    if a.createdAt == c.createdAt { StrLeqTransitive(a.jobId, b.jobId, c.jobId); }
  }

  lemma JobLeqTotal(a: Job, b: Job)
    ensures JobLeq(a, b) || JobLeq(b, a)
  {
    StrLeqTotal(a.jobId, b.jobId);
  }

  lemma {:induction false} LatestIsGreatest(jobs: seq<Job>, j: Job)
    requires j in jobs
    ensures JobLeq(j, Latest(jobs))
  {
    var last := jobs[|jobs| - 1];
    JobLeqTotal(j, j);
    if |jobs| > 1 {
      var before := jobs[..|jobs| - 1];
      assert jobs == before + [last];
      JobLeqTotal(last, Latest(before));
      if j in before {
        LatestIsGreatest(before, j);
        if !JobLeq(last, Latest(before)) { JobLeqTransitive(j, Latest(before), last); }
      }
    }
  }

  lemma GreatestIsLatest(jobs: seq<Job>, j: Job)
    requires IdsIdentify(jobs) && j in jobs && forall k :: k in jobs ==> JobLeq(k, j)
    ensures Latest(jobs) == j
  {
    LatestIsGreatest(jobs, j);
    StrLeqAntisymmetric(j.jobId, Latest(jobs).jobId);
  }

  lemma ByIdOrders()
    ensures TotalPreorder(ById())
  {
    forall a: Job, b: Job ensures ById()(a, b) || ById()(b, a) { StrLeqTotal(a.jobId, b.jobId); }
    forall a: Job, b: Job, c: Job | ById()(a, b) && ById()(b, c) ensures ById()(a, c) {
      StrLeqTransitive(a.jobId, b.jobId, c.jobId);
    }
  }

  lemma ByIdDistinguishes(jobs: seq<Job>)
    requires IdsIdentify(jobs)
    ensures Distinguishes(jobs, ById())
  {
    forall x, y | x in jobs && y in jobs && ById()(x, y) && ById()(y, x) ensures x == y {
      StrLeqAntisymmetric(x.jobId, y.jobId);
    }
  }

  /** The wave is the jobs of the newest action, whatever else the run holds and in whatever order. */
  lemma SameWave(jobs: seq<Job>, others: seq<Job>)
    requires IdsIdentify(jobs) && jobs != [] && others != [] && Latest(jobs).actionId == Latest(others).actionId
    requires var ours := OfAction(Latest(jobs).actionId);
      multiset(Filter(jobs, ours)) == multiset(Filter(others, ours))
    ensures LatestWave(jobs) == LatestWave(others)
  {
    var wave := Filter(jobs, OfAction(Latest(jobs).actionId));
    ByIdOrders();
    assert IdsIdentify(wave);
    ByIdDistinguishes(wave);
    SortPermutation(wave, Filter(others, OfAction(Latest(jobs).actionId)), ById());
  }

  lemma SameElements<T>(s: seq<T>, t: seq<T>)
    requires multiset(s) == multiset(t)
    ensures forall x :: x in s <==> x in t
    ensures s == [] <==> t == []
  {
    forall x ensures x in s <==> x in t {
      assert x in s <==> x in multiset(s);
      assert x in t <==> x in multiset(t);
    }
    if s != [] { assert s[0] in t; }
    if t != [] { assert t[0] in s; }
  }

  lemma WavePermuted(jobs: seq<Job>, others: seq<Job>)
    requires IdsIdentify(jobs) && multiset(jobs) == multiset(others)
    ensures LatestWave(jobs) == LatestWave(others)
  {
    SameElements(jobs, others);
    if jobs != [] {
      forall k | k in others ensures JobLeq(k, Latest(jobs)) { LatestIsGreatest(jobs, k); }
      GreatestIsLatest(others, Latest(jobs));
      FilterPermutation(jobs, others, OfAction(Latest(jobs).actionId));
      SameWave(jobs, others);
    }
  }

  /** Every job of `older` was created before the newest of `jobs`, for another action. */
  ghost predicate Superseded(older: seq<Job>, jobs: seq<Job>)
    requires jobs != []
  {
    forall k :: k in older ==> k.actionId != Latest(jobs).actionId && JobLeq(k, Latest(jobs))
  }

  lemma NoneLeft<T(!new)>(s: seq<T>, p: T -> bool)
    requires forall x :: x in s ==> !p(x)
    ensures Filter(s, p) == []
  {
    FirstIsIn(Filter(s, p));
  }

  lemma FirstIsIn<T>(s: seq<T>)
    ensures s != [] ==> s[0] in s
  {
  }

  /** Superseded waves have no say: adding one changes nothing. */
  lemma OlderWaveIgnored(jobs: seq<Job>, older: seq<Job>)
    requires jobs != [] && IdsIdentify(jobs + older) && Superseded(older, jobs)
    ensures LatestWave(jobs + older) == LatestWave(jobs)
  {
    var all := jobs + older;
    forall k | k in all ensures JobLeq(k, Latest(jobs)) {
      if k in jobs { LatestIsGreatest(jobs, k); }
    }
    GreatestIsLatest(all, Latest(jobs));
    var ours := OfAction(Latest(jobs).actionId);
    FilterConcat(jobs, older, ours);
    NoneLeft(older, ours);
    assert IdsIdentify(jobs);
    SameWave(jobs, all);
  }

  // ---------------------------------------------------------------------------
  // Evaluation artifacts
  // ---------------------------------------------------------------------------

  function EvaluationOf(jobId: string, fileName: string -> string): Artifact -> bool {
    (a: Artifact) => a.jobId == Some(jobId) && fileName(a.uri) == EVALUATION_FILENAME
  }

  function ByUriThenSha(): (Artifact, Artifact) -> bool {
    (a: Artifact, b: Artifact) => if a.uri == b.uri then StrLeq(a.sha, b.sha) else StrLeq(a.uri, b.uri)
  }

  /** The evaluation artifacts of a job, in the order they are considered. */
  function EvaluationsFor(artifacts: seq<Artifact>, jobId: string, fileName: string -> string): seq<Artifact> {
    Sort(Filter(artifacts, EvaluationOf(jobId, fileName)), ByUriThenSha())
  }

  lemma ByUriOrders()
    ensures TotalPreorder(ByUriThenSha())
  {
    var leq := ByUriThenSha();
    forall a: Artifact, b: Artifact ensures leq(a, b) || leq(b, a) {
      StrLeqTotal(a.sha, b.sha);
      StrLeqTotal(a.uri, b.uri);
    }
    forall a: Artifact, b: Artifact, c: Artifact | leq(a, b) && leq(b, c) ensures leq(a, c) {
      if a.uri == b.uri == c.uri {
        StrLeqTransitive(a.sha, b.sha, c.sha);
      } else if a.uri != b.uri && b.uri != c.uri {
        StrLeqTransitive(a.uri, b.uri, c.uri);
        if a.uri == c.uri { StrLeqAntisymmetric(a.uri, b.uri); }
      }
    }
  }

  lemma EvaluationsPermuted(artifacts: seq<Artifact>, others: seq<Artifact>, jobId: string, fileName: string -> string)
    requires multiset(artifacts) == multiset(others)
    ensures EvaluationsFor(artifacts, jobId, fileName) == EvaluationsFor(others, jobId, fileName)
  {
    var mine := EvaluationOf(jobId, fileName);
    FilterPermutation(artifacts, others, mine);
    ByUriOrders();
    var leq := ByUriThenSha();
    var kept := Filter(artifacts, mine);
    forall x, y | x in kept && y in kept && leq(x, y) && leq(y, x) ensures x == y {
      if x.uri == y.uri { StrLeqAntisymmetric(x.sha, y.sha); } else { StrLeqAntisymmetric(x.uri, y.uri); }
    }
    SortPermutation(kept, Filter(others, mine), leq);
  }

  /** The evaluation artifacts of every job that has any, in the order of the list. */
  ghost predicate EvaluationsFound(found: map<string, seq<Artifact>>, artifacts: seq<Artifact>,
      fileName: string -> string)
  {
    forall id: string ::
      && (id in found <==> Filter(artifacts, EvaluationOf(id, fileName)) != [])
      && (id in found ==> found[id] == Filter(artifacts, EvaluationOf(id, fileName)))
  }

  function ListedFor<T>(found: map<string, seq<T>>, id: string): seq<T> { if id in found then found[id] else [] }

  lemma EvaluationsFoundNext(found: map<string, seq<Artifact>>, artifacts: seq<Artifact>, a: Artifact,
      fileName: string -> string)
    requires EvaluationsFound(found, artifacts, fileName)
    ensures EvaluationsFound(
      if a.jobId.Some? && fileName(a.uri) == EVALUATION_FILENAME
      then found[a.jobId.value := ListedFor(found, a.jobId.value) + [a]] else found,
      artifacts + [a], fileName)
  {
    forall id: string
      ensures Filter(artifacts + [a], EvaluationOf(id, fileName)) ==
        Filter(artifacts, EvaluationOf(id, fileName)) + if EvaluationOf(id, fileName)(a) then [a] else []
    {
      FilterSnoc(artifacts, a, EvaluationOf(id, fileName));
    }
  }

  /** evaluation_artifacts_by_job: only jobs that have evaluation artifacts are listed. */
  method EvaluationArtifactsByJob(artifacts: seq<Artifact>, fileName: string -> string)
    returns (byJob: map<string, seq<Artifact>>)
    ensures forall id: string :: id in byJob <==> Filter(artifacts, EvaluationOf(id, fileName)) != []
    ensures forall id: string :: id in byJob ==> byJob[id] == EvaluationsFor(artifacts, id, fileName)
  {
    var found: map<string, seq<Artifact>> := map[];
    for i := 0 to |artifacts|
      invariant EvaluationsFound(found, artifacts[..i], fileName)
    {
      var a := artifacts[i];
      assert artifacts[..i + 1] == artifacts[..i] + [a];
      EvaluationsFoundNext(found, artifacts[..i], a, fileName);
      if a.jobId.Some? && fileName(a.uri) == EVALUATION_FILENAME {
        found := found[a.jobId.value := ListedFor(found, a.jobId.value) + [a]];
      }
    }
    assert artifacts[..|artifacts|] == artifacts;
    byJob := map id | id in found :: Sort(found[id], ByUriThenSha());
  }

  // ---------------------------------------------------------------------------
  // The fingerprint
  // ---------------------------------------------------------------------------

  function StatusText(s: Status): string {
    match s
    case Queued => "queued"
    case Submitting => "submitting"
    case Running => "running"
    case Succeeded => "succeeded"
    case Failed => "failed"
    case Cancelled => "cancelled"
    case Unknown => "unknown"
  }

  function Sha(): Artifact -> string { (a: Artifact) => a.sha }

  function EvaluationShas(artifacts: seq<Artifact>, jobId: string, fileName: string -> string): seq<string> {
    Sort(Map(Filter(artifacts, EvaluationOf(jobId, fileName)), Sha()), TextOrder())
  }

  function Line(job: Job, shas: seq<string>): string {
    job.jobId + ":" + Decimal.ShowInt(job.seed) + ":" + job.variantName + ":" + StatusText(job.status) + ":" +
    Text.Join(",", shas)
  }

  function LineIn(artifacts: seq<Artifact>, fileName: string -> string): Job -> string {
    (job: Job) => Line(job, EvaluationShas(artifacts, job.jobId, fileName))
  }

  /** The lines that are hashed, one for each job of the newest wave. */
  function FingerprintLines(jobs: seq<Job>, artifacts: seq<Artifact>, fileName: string -> string): seq<string> {
    Map(LatestWave(jobs), LineIn(artifacts, fileName))
  }

  ghost predicate ShasFound(found: map<string, seq<string>>, artifacts: seq<Artifact>, fileName: string -> string) {
    forall id: string :: ListedFor(found, id) == Map(Filter(artifacts, EvaluationOf(id, fileName)), Sha())
  }

  lemma ShasFoundNext(found: map<string, seq<string>>, artifacts: seq<Artifact>, a: Artifact,
      fileName: string -> string)
    requires ShasFound(found, artifacts, fileName)
    ensures ShasFound(
      if a.jobId.Some? && fileName(a.uri) == EVALUATION_FILENAME
      then found[a.jobId.value := ListedFor(found, a.jobId.value) + [a.sha]] else found,
      artifacts + [a], fileName)
  {
    var next := if a.jobId.Some? && fileName(a.uri) == EVALUATION_FILENAME
      then found[a.jobId.value := ListedFor(found, a.jobId.value) + [a.sha]] else found;
    forall id: string
      ensures ListedFor(next, id) == Map(Filter(artifacts + [a], EvaluationOf(id, fileName)), Sha())
    {
      FilterSnoc(artifacts, a, EvaluationOf(id, fileName));
      MapConcat(Filter(artifacts, EvaluationOf(id, fileName)), [a], Sha());
      assert ListedFor(found, id) == Map(Filter(artifacts, EvaluationOf(id, fileName)), Sha());
    }
  }

  /** The recorded digests of each job's evaluations, in the order of the artifacts. */
  method ShasByJob(artifacts: seq<Artifact>, fileName: string -> string) returns (found: map<string, seq<string>>)
    ensures ShasFound(found, artifacts, fileName)
  {
    found := map[];
    for i := 0 to |artifacts|
      invariant ShasFound(found, artifacts[..i], fileName)
    {
      var a := artifacts[i];
      assert artifacts[..i + 1] == artifacts[..i] + [a];
      ShasFoundNext(found, artifacts[..i], a, fileName);
      if a.jobId.Some? && fileName(a.uri) == EVALUATION_FILENAME {
        found := found[a.jobId.value := ListedFor(found, a.jobId.value) + [a.sha]];
      }
    }
    assert artifacts[..|artifacts|] == artifacts;
  }

  method WaveLines(wave: seq<Job>, artifacts: seq<Artifact>, fileName: string -> string, ghost line: Job -> string)
    returns (lines: seq<string>)
    requires line == LineIn(artifacts, fileName)
    ensures lines == Map(wave, line)
  {
    var found := ShasByJob(artifacts, fileName);
    lines := [];
    for i := 0 to |wave|
      invariant lines == Map(wave[..i], line)
    {
      var next := JobLine(wave[i], found, artifacts, fileName, line);
      MapSnoc(wave, i, line);
      lines := lines + [next];
    }
    assert wave[..|wave|] == wave;
  }

  method JobLine(job: Job, found: map<string, seq<string>>, ghost artifacts: seq<Artifact>,
      ghost fileName: string -> string, ghost line: Job -> string)
    returns (text: string)
    requires ShasFound(found, artifacts, fileName) && line == LineIn(artifacts, fileName)
    ensures text == line(job)
  {
    text := Line(job, Sort(ListedFor(found, job.jobId), TextOrder()));
  }

  method CollectLines(jobs: seq<Job>, artifacts: seq<Artifact>, fileName: string -> string) returns (lines: seq<string>)
    ensures lines == FingerprintLines(jobs, artifacts, fileName)
  {
    ghost var line := LineIn(artifacts, fileName);
    lines := WaveLines(LatestWave(jobs), artifacts, fileName, line);
  }

  /** comparison_input_fingerprint, for any digest of the joined lines. */
  method Fingerprint(jobs: seq<Job>, artifacts: seq<Artifact>, fileName: string -> string, digest: string -> string)
    returns (f: string)
    ensures f == digest(Text.Join("\n", FingerprintLines(jobs, artifacts, fileName)))
  {
    var lines := CollectLines(jobs, artifacts, fileName);
    f := digest(Text.Join("\n", lines));
  }

  lemma ShasPermuted(artifacts: seq<Artifact>, others: seq<Artifact>, jobId: string, fileName: string -> string)
    requires multiset(artifacts) == multiset(others)
    ensures EvaluationShas(artifacts, jobId, fileName) == EvaluationShas(others, jobId, fileName)
  {
    var mine := EvaluationOf(jobId, fileName);
    FilterPermutation(artifacts, others, mine);
    MapPermutation(Filter(artifacts, mine), Filter(others, mine), Sha());
    TextOrdered();
    TextsDistinguished(Map(Filter(artifacts, mine), Sha()));
    SortPermutation(Map(Filter(artifacts, mine), Sha()), Map(Filter(others, mine), Sha()), TextOrder());
  }

  /** The fingerprint sees neither the order of its inputs nor any superseded wave. */
  lemma FingerprintStable(jobs: seq<Job>, artifacts: seq<Artifact>, jobs': seq<Job>, artifacts': seq<Artifact>,
      fileName: string -> string)
    requires LatestWave(jobs) == LatestWave(jobs') && multiset(artifacts) == multiset(artifacts')
    ensures FingerprintLines(jobs, artifacts, fileName) == FingerprintLines(jobs', artifacts', fileName)
  {
    forall id: string ensures EvaluationShas(artifacts, id, fileName) == EvaluationShas(artifacts', id, fileName) {
      ShasPermuted(artifacts, artifacts', id, fileName);
    }
  }
}
