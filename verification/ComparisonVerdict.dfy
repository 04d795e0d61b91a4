/**
 The cross-job comparison verdict (comparison_checks.py and comparison.py): which compared values
 are backed by a passing job, and whether the compared jobs are comparable at all.
 */
module ComparisonVerdict {
  import opened Wrappers
  import opened Order
  import opened Lists
  import opened ComparisonInputs
  import Text
  import Methodology = MethodologyRepair

  type Evaluation = map<string, Json>

  datatype Evidence = Evidence(artifact: Option<Artifact>, evaluation: Option<Evaluation>)

  datatype Context = Context(run: Binding, metric: Option<string>, evidence: map<string, Evidence>)

  datatype JobReason =
    | NoArtifact
    | Unreadable
    | ContractMismatch
    | StatusIs(status: Status)
    | EvaluatorFailed
    | MetricMissing(key: string)

  datatype ValueReason = ForJob(jobId: string, reason: JobReason) | NoPassingJob

  datatype RequirementReason =
    | NoOverride
    | TooFew(minimum: nat, found: nat)
    | TooMany(maximum: nat, found: nat)
    | BindingDiffers
    | BaseConfigDiffers
    | OtherAxesDiffer
    | SeedSetsDiffer
    | KeyMissing
    | KeysDiffer

  datatype JobDocument = JobDocument(jobId: string, variantName: string, seed: int, status: Status,
                                     integrityPass: Option<bool>, primaryMetric: Json,
                                     evaluationUri: Option<string>, artifactDigest: Option<string>)

  datatype Outcome = Outcome(document: JobDocument, passing: bool, reason: Option<JobReason>)

  datatype ValueDocument = ValueDocument(
    value: string, jobs: seq<JobDocument>, satisfied: bool, reasons: seq<ValueReason>)

  datatype RequirementDocument = RequirementDocument(id: string, configPath: string, satisfied: bool,
                                                     reasons: seq<RequirementReason>, values: seq<ValueDocument>)

  datatype ReportReason =
    | OfRequirement(id: string, reason: RequirementReason)
    | OfValue(id: string, value: string, why: ValueReason)

  datatype Report = Report(contract: Binding, requirements: seq<RequirementDocument>, satisfied: bool,
                           reasons: seq<ReportReason>)

  /** The jobs that override the path, and for each value, in order of appearance, its jobs. */
  datatype ValueIndex = ValueIndex(participating: seq<Job>, names: seq<string>, byValue: map<string, seq<Job>>)

  // ---------------------------------------------------------------------------
  // One job
  // ---------------------------------------------------------------------------

  const PASS_KEYS := ["passed", "pass", "ok", "success"]

  function FirstPresent(keys: seq<string>, fields: map<string, Json>): Option<Json> {
    if keys == [] then None
    else if keys[0] in fields then Some(fields[keys[0]])
    else FirstPresent(keys[1..], fields)
  }

  /** Only a real `True` passes. */
  predicate CheckPassed(check: Json, passKeys: seq<string>) {
    if check.Object? then FirstPresent(passKeys, check.fields) == Some(Bool(true))
    else check == Bool(true)
  }

  predicate EvaluationPassed(e: Evaluation) {
    if "integrity_pass" in e then e["integrity_pass"] == Bool(true)
    else if "checks" !in e then false
    else
      var checks := e["checks"];
      if checks.Object? then
        checks.fields != map[] && forall k :: k in checks.fields ==> CheckPassed(checks.fields[k], PASS_KEYS)
      else if checks.Array? then
        checks.items != [] && forall i :: 0 <= i < |checks.items| ==> CheckPassed(checks.items[i], PASS_KEYS)
      else false
  }

  predicate Names(e: Evaluation, key: string, expected: string) { key in e ==> e[key] == Str(expected) }

  predicate ContractMatches(e: Evaluation, run: Binding) {
    && Names(e, "contract_id", run.id)
    && Names(e, "contract_version", run.version)
    && Names(e, "contract_digest", run.digest)
  }

  function Field(fields: map<string, Json>, key: string): Json { if key in fields then fields[key] else Null }

  /** The primary metric in the first of the shapes that carries one. */
  function ResolvedMetric(e: Evaluation, key: string): Json {
    var metrics, primary := Field(e, "metrics"), Field(e, "primary_metric");
    if metrics.Object? && Field(metrics.fields, key) != Null then metrics.fields[key]
    else if Field(e, key) != Null then e[key]
    else if primary.Object? && Field(primary.fields, "name") == Str(key) && "value" in primary.fields then
      primary.fields["value"]
    else if primary == Str(key) then Field(e, "primary_value")
    else Null
  }

  function JobOutcome(job: Job, evidence: Evidence, context: Context): Outcome {
    var read := evidence.artifact.Some? && evidence.evaluation.Some?;
    var matches := read && ContractMatches(evidence.evaluation.value, context.run);
    var passed := read && EvaluationPassed(evidence.evaluation.value);
    var metric :=
      if matches && context.metric.Some? then ResolvedMetric(evidence.evaluation.value, context.metric.value)
                  else Null;
    var reason :=
      if evidence.artifact.None? then Some(NoArtifact)
      else if evidence.evaluation.None? then Some(Unreadable)
      else if !matches then Some(ContractMismatch)
      else if job.status != Succeeded then Some(StatusIs(job.status))
      else if !passed then Some(EvaluatorFailed)
      else if context.metric.Some? && metric == Null then Some(MetricMissing(context.metric.value))
      else None;
    Outcome(
      JobDocument(job.jobId, job.variantName, job.seed, job.status, if read then Some(passed) else None, metric,
                  if evidence.artifact.Some? then Some(evidence.artifact.value.uri) else None,
                  if evidence.artifact.Some? then Some(evidence.artifact.value.sha) else None),
      reason.None?, reason)
  }

  function EvidenceFor(context: Context, jobId: string): Evidence {
    if jobId in context.evidence then context.evidence[jobId] else Evidence(None, None)
  }

  function OutcomeIn(context: Context): Job -> Outcome {
    (job: Job) => JobOutcome(job, EvidenceFor(context, job.jobId), context)
  }

  /** A succeeded job with a readable, contract-matched, passing evaluation that carries the metric. */
  predicate Passes(job: Job, context: Context) {
    var evidence := EvidenceFor(context, job.jobId);
    && job.status == Succeeded
    && evidence.artifact.Some? && evidence.evaluation.Some?
    && ContractMatches(evidence.evaluation.value, context.run)
    && EvaluationPassed(evidence.evaluation.value)
    && (context.metric.Some? ==> ResolvedMetric(evidence.evaluation.value, context.metric.value) != Null)
  }

  /** A job passes or a reason is given, never both. */
  lemma OutcomePasses(job: Job, context: Context)
    ensures var o := OutcomeIn(context)(job);
      && (o.passing <==> Passes(job, context))
      && (o.passing <==> o.reason.None?)
  {
  }

  // ---------------------------------------------------------------------------
  // The compared values
  // ---------------------------------------------------------------------------

  /** scalar_override, as the text the values are compared by. */
  function ValueOf(job: Job, path: string): Option<string> {
    if path !in job.overrides then None
    else
      match job.overrides[path]
      case Str(text) => Some(text)
      case Number(digits) => Some(digits)
      case Bool(truth) => Some(if truth then "True" else "False")
      case _ => None
  }

  function Participates(path: string): Job -> bool { (j: Job) => ValueOf(j, path).Some? }

  function HasValue(path: string, value: string): Job -> bool { (j: Job) => ValueOf(j, path) == Some(value) }

  function ValueText(path: string): Job -> string {
    (j: Job) => match ValueOf(j, path) case Some(v) => v case None => ""
  }

  function JobsWith(jobs: seq<Job>, path: string, value: string): seq<Job> { Filter(jobs, HasValue(path, value)) }

  function NamesOf(jobs: seq<Job>, path: string): (r: seq<string>) {
    Distinct(Map(Filter(jobs, Participates(path)), ValueText(path)))
  }

  ghost predicate Indexes(index: ValueIndex, jobs: seq<Job>, path: string) {
    && index.names == NamesOf(jobs, path)
    && index.byValue.Keys == (set v | v in index.names)
    && forall v :: v in index.byValue ==> index.byValue[v] == JobsWith(jobs, path, v)
  }

  lemma NameIff(jobs: seq<Job>, path: string, v: string)
    ensures v in NamesOf(jobs, path) <==> exists j :: j in jobs && ValueOf(j, path) == Some(v)
  {
    var kept := Filter(jobs, Participates(path));
    var texts := Map(kept, ValueText(path));
    if v in NamesOf(jobs, path) {
      var i :| 0 <= i < |kept| && texts[i] == v;
      assert kept[i] in kept;
    }
    if j :| j in jobs && ValueOf(j, path) == Some(v) {
      assert j in kept;
      var i :| 0 <= i < |kept| && kept[i] == j;
      assert texts[i] == v;
    }
  }

  lemma NamesSnoc(jobs: seq<Job>, j: Job, path: string)
    ensures NamesOf(jobs + [j], path) ==
      var names := NamesOf(jobs, path);
      match ValueOf(j, path)
      case None => names
      case Some(v) => if v in names then names else names + [v]
  {
    FilterSnoc(jobs, j, Participates(path));
    var kept := Filter(jobs, Participates(path));
    if Participates(path)(j) {
      MapConcat(kept, [j], ValueText(path));
      var texts := Map(kept + [j], ValueText(path));
      assert texts[..|texts| - 1] == Map(kept, ValueText(path));
    } else {
      assert kept + [] == kept;
    }
  }

  lemma JobsWithSnoc(jobs: seq<Job>, j: Job, path: string, v: string)
    ensures JobsWith(jobs + [j], path, v) == JobsWith(jobs, path, v) + if ValueOf(j, path) == Some(v) then [j] else []
    ensures v !in NamesOf(jobs, path) ==> JobsWith(jobs, path, v) == []
  {
    FilterSnoc(jobs, j, HasValue(path, v));
    NameIff(jobs, path, v);
    if v !in NamesOf(jobs, path) { NoneLeft(jobs, HasValue(path, v)); }
  }

  lemma IndexesSkip(index: ValueIndex, jobs: seq<Job>, j: Job, path: string)
    requires Indexes(index, jobs, path) && ValueOf(j, path).None?
    ensures Indexes(index, jobs + [j], path)
  {
    NamesSnoc(jobs, j, path);
    forall v | v in index.byValue ensures JobsWith(jobs + [j], path, v) == JobsWith(jobs, path, v) {
      JobsWithSnoc(jobs, j, path, v);
    }
  }

  function Added(index: ValueIndex, j: Job, v: string): ValueIndex {
    ValueIndex(index.participating + [j], if v in index.names then index.names else index.names + [v],
               index.byValue[v := ListedFor(index.byValue, v) + [j]])
  }

  lemma IndexesNext(index: ValueIndex, jobs: seq<Job>, j: Job, v: string, path: string)
    requires Indexes(index, jobs, path) && ValueOf(j, path) == Some(v)
    ensures Indexes(Added(index, j, v), jobs + [j], path)
  {
    NamesSnoc(jobs, j, path);
    var next := Added(index, j, v);
    JobsWithSnoc(jobs, j, path, v);
    forall w | w in next.byValue && w != v ensures next.byValue[w] == JobsWith(jobs + [j], path, w) {
      JobsWithSnoc(jobs, j, path, w);
    }
    assert next.byValue.Keys == index.byValue.Keys + {v};
  }

  function IndexOf(jobs: seq<Job>, path: string): (index: ValueIndex)
    ensures Indexes(index, jobs, path)
  {
    var names := NamesOf(jobs, path);
    ValueIndex(Sort(Filter(jobs, Participates(path)), ById()), names,
               map v | v in names :: JobsWith(jobs, path, v))
  }

  method BuildValueIndex(path: string, jobs: seq<Job>) returns (index: ValueIndex)
    ensures index == IndexOf(jobs, path)
  {
    index := ValueIndex([], [], map[]);
    for i := 0 to |jobs|
      invariant Indexes(index, jobs[..i], path)
      invariant index.participating == Filter(jobs[..i], Participates(path))
    {
      var j := jobs[i];
      assert jobs[..i + 1] == jobs[..i] + [j];
      FilterSnoc(jobs[..i], j, Participates(path));
      match ValueOf(j, path) {
        case None =>
          IndexesSkip(index, jobs[..i], j, path);
        case Some(v) =>
          IndexesNext(index, jobs[..i], j, v, path);
          index := Added(index, j, v);
      }
    }
    assert jobs[..|jobs|] == jobs;
    IndexDetermined(index, jobs, path);
    index := index.(participating := Sort(index.participating, ById()));
  }

  lemma IndexDetermined(index: ValueIndex, jobs: seq<Job>, path: string)
    requires Indexes(index, jobs, path) && index.participating == Filter(jobs, Participates(path))
    ensures index.(participating := Sort(index.participating, ById())) == IndexOf(jobs, path)
  {
  }

  // ---------------------------------------------------------------------------
  // Comparability
  // ---------------------------------------------------------------------------

  /** `{f(x) for x in s}`. */
  function Images<T(==,!new), U(==)>(s: seq<T>, f: T -> U): set<U> { set x | x in s :: f(x) }

  predicate Differ<T(==,!new), U(==)>(s: seq<T>, f: T -> U) { |Images(s, f)| > 1 }

  lemma ImagesSnoc<T(!new), U>(s: seq<T>, last: T, f: T -> U)
    ensures Images(s + [last], f) == Images(s, f) + {f(last)}
  {
  }

  lemma MoreThanOne<U>(s: set<U>)
    ensures |s| > 1 <==> exists x, y :: x in s && y in s && x != y
  {
    if |s| > 1 {
      var x :| x in s;
      assert |s - {x}| > 0;
      var y :| y in s - {x};
    }
    if x, y :| x in s && y in s && x != y {
      assert {x, y} <= s;
      SubsetSize({x, y}, s);
    }
  }

  lemma {:induction false} SubsetSize<U>(a: set<U>, b: set<U>)
    requires a <= b
    ensures |a| <= |b|
  {
    if a != {} {
      var x :| x in a;
      SubsetSize(a - {x}, b - {x});
    }
  }

  lemma DifferIff<T(!new), U>(s: seq<T>, f: T -> U)
    ensures Differ(s, f) <==> exists x, y :: x in s && y in s && f(x) != f(y)
  {
    MoreThanOne(Images(s, f));
    if x, y :| x in s && y in s && f(x) != f(y) {
      assert f(x) in Images(s, f) && f(y) in Images(s, f);
    }
  }

  /** The evaluator's attestation of the protocol constants. */
  function KeyOf(context: Context): Job -> Option<string> {
    (job: Job) =>
      var evaluation := EvidenceFor(context, job.jobId).evaluation;
      if evaluation.None? then None
      else
        var key := Field(evaluation.value, "comparison_key");
        if key.Str? && !Text.Blank(key.text) then Some(key.text) else None
  }

  /** The text of an attested key; it matters only where every job has one. */
  function KeyText(key: Job -> Option<string>): Job -> string {
    (job: Job) => match key(job) case Some(text) => text case None => ""
  }

  function KeyReasons(participating: seq<Job>, key: Job -> Option<string>): seq<RequirementReason> {
    if exists i :: 0 <= i < |participating| && key(participating[i]) == None then [KeyMissing]
    else if Differ(participating, KeyText(key)) then [KeysDiffer]
    else []
  }

  /** comparison_key_reasons, for the keys the evaluations attest. */
  method ComparisonKeyReasons(participating: seq<Job>, key: Job -> Option<string>)
    returns (reasons: seq<RequirementReason>)
    ensures reasons == KeyReasons(participating, key)
  {
    var keys: set<string> := {};
    var missing := false;
    for i := 0 to |participating|
      invariant missing <==> exists k :: 0 <= k < i && key(participating[k]) == None
      invariant !missing ==> keys == Images(participating[..i], KeyText(key))
    {
      assert participating[..i + 1] == participating[..i] + [participating[i]];
      ImagesSnoc(participating[..i], participating[i], KeyText(key));
      match key(participating[i]) {
        case None => missing := true;
        case Some(text) =>
          keys := keys + {text};
          assert KeyText(key)(participating[i]) == text;
      }
    }
    assert participating[..|participating|] == participating;
    reasons := if missing then [KeyMissing] else if |keys| > 1 then [KeysDiffer] else [];
  }

  function BaseConfigOf(): Job -> string { (j: Job) => j.baseConfig }

  /** Every override but the compared one. */
  function AxisOf(path: string): Job -> map<string, Json> { (j: Job) => j.overrides - {path} }

  function SeedsOf(jobs: seq<Job>): set<int> { set j | j in jobs :: j.seed }

  function SeedsAt(byValue: map<string, seq<Job>>): string -> set<int> {
    (v: string) => SeedsOf(ListedFor(byValue, v))
  }

  function CountReasons(r: Methodology.Requirement, count: nat): seq<RequirementReason> {
    (if count == 0 then [NoOverride] else []) +
    (if count < r.minimum then [TooFew(r.minimum, count)] else []) +
    (if r.maximum.Some? && count > r.maximum.value then [TooMany(r.maximum.value, count)] else [])
  }

  function When(differs: bool, reason: RequirementReason): (r: seq<RequirementReason>)
    ensures forall x :: x in r <==> differs && x == reason
  {
    if differs then [reason] else []
  }

  function ComparabilityReasons(r: Methodology.Requirement, index: ValueIndex, context: Context):
    seq<RequirementReason>
  {
    var ps := index.participating;
    CountReasons(r, |index.names|) +
    When(exists i :: 0 <= i < |ps| && ps[i].contract != context.run, BindingDiffers) +
    When(Differ(ps, BaseConfigOf()), BaseConfigDiffers) +
    When(Differ(ps, AxisOf(r.configPath)), OtherAxesDiffer) +
    When(Differ(index.names, SeedsAt(index.byValue)), SeedSetsDiffer) +
    KeyReasons(ps, KeyOf(context))
  }

  predicate Compared(jobs: seq<Job>, path: string, j: Job) { j in jobs && ValueOf(j, path).Some? }

  function ValueSet(jobs: seq<Job>, path: string): set<string> {
    set j | j in jobs && ValueOf(j, path).Some? :: ValueOf(j, path).value
  }

  /** How many different values are compared. */
  ghost predicate CountFits(r: Methodology.Requirement, jobs: seq<Job>) {
    var count := |ValueSet(jobs, r.configPath)|;
    1 <= count && r.minimum <= count && (r.maximum.Some? ==> count <= r.maximum.value)
  }

  /** The compared jobs are bound to the run's contract and differ in nothing but the compared path. */
  ghost predicate SameProtocol(r: Methodology.Requirement, jobs: seq<Job>, context: Context) {
    && (forall j :: Compared(jobs, r.configPath, j) ==> j.contract == context.run)
    && (forall j, k :: Compared(jobs, r.configPath, j) && Compared(jobs, r.configPath, k) ==>
          j.baseConfig == k.baseConfig && j.overrides - {r.configPath} == k.overrides - {r.configPath})
  }

  /** Every compared value was run on the same seeds. */
  ghost predicate SameSeeds(r: Methodology.Requirement, jobs: seq<Job>) {
    forall v, w :: v in ValueSet(jobs, r.configPath) && w in ValueSet(jobs, r.configPath) ==>
      SeedsOf(JobsWith(jobs, r.configPath, v)) == SeedsOf(JobsWith(jobs, r.configPath, w))
  }

  /** Every compared job attests one and the same comparison key. */
  ghost predicate OneKey(r: Methodology.Requirement, jobs: seq<Job>, key: Job -> Option<string>) {
    exists text :: forall j :: Compared(jobs, r.configPath, j) ==> key(j) == Some(text)
  }

  lemma ParticipatingIff(jobs: seq<Job>, path: string)
    ensures forall j :: j in IndexOf(jobs, path).participating <==> Compared(jobs, path, j)
  {
    SameElements(IndexOf(jobs, path).participating, Filter(jobs, Participates(path)));
  }

  lemma NamesAreValues(jobs: seq<Job>, path: string)
    ensures |NamesOf(jobs, path)| == |ValueSet(jobs, path)|
    ensures forall v :: v in NamesOf(jobs, path) <==> v in ValueSet(jobs, path)
  {
    var texts := Map(Filter(jobs, Participates(path)), ValueText(path));
    DistinctOnce(texts);
    forall v ensures v in NamesOf(jobs, path) <==> v in ValueSet(jobs, path) {
      NameIff(jobs, path, v);
    }
    assert (set x | x in texts) == ValueSet(jobs, path);
  }

  lemma NoKeyReasons(ps: seq<Job>, key: Job -> Option<string>) returns (text: string)
    requires KeyReasons(ps, key) == []
    ensures forall j :: j in ps ==> key(j) == Some(text)
  {
    DifferIff(ps, KeyText(key));
    text := if ps == [] then "" else KeyText(key)(ps[0]);
    forall j | j in ps ensures key(j) == Some(text) {
      var i :| 0 <= i < |ps| && ps[i] == j;
      assert key(ps[i]) != None && ps[0] in ps;
      assert KeyText(key)(j) == KeyText(key)(ps[0]);
    }
  }

  lemma SharedKey(ps: seq<Job>, key: Job -> Option<string>, text: string)
    requires forall j :: j in ps ==> key(j) == Some(text)
    ensures KeyReasons(ps, key) == []
  {
    DifferIff(ps, KeyText(key));
    forall j | j in ps ensures KeyText(key)(j) == text { assert key(j) == Some(text); }
    forall i | 0 <= i < |ps| ensures key(ps[i]) != None { assert ps[i] in ps; }
  }

  lemma KeyReasonsIff(r: Methodology.Requirement, jobs: seq<Job>, ps: seq<Job>, key: Job -> Option<string>)
    requires forall j :: j in ps <==> Compared(jobs, r.configPath, j)
    ensures KeyReasons(ps, key) == [] <==> OneKey(r, jobs, key)
  {
    if KeyReasons(ps, key) == [] {
      var text := NoKeyReasons(ps, key);
      assert forall j :: Compared(jobs, r.configPath, j) ==> key(j) == Some(text);
    }
    if text :| forall j :: Compared(jobs, r.configPath, j) ==> key(j) == Some(text) {
      SharedKey(ps, key, text);
    }
  }

  lemma ProtocolReasonsIff(r: Methodology.Requirement, jobs: seq<Job>, ps: seq<Job>, context: Context)
    requires forall j :: j in ps <==> Compared(jobs, r.configPath, j)
    ensures SameProtocol(r, jobs, context) <==>
      && (forall i :: 0 <= i < |ps| ==> ps[i].contract == context.run)
      && !Differ(ps, BaseConfigOf()) && !Differ(ps, AxisOf(r.configPath))
  {
    DifferIff(ps, BaseConfigOf());
    DifferIff(ps, AxisOf(r.configPath));
    assert (forall j :: j in ps ==> j.contract == context.run) <==>
      forall i :: 0 <= i < |ps| ==> ps[i].contract == context.run;
    assert Differ(ps, BaseConfigOf()) <==> exists x, y :: x in ps && y in ps && x.baseConfig != y.baseConfig;
    assert Differ(ps, AxisOf(r.configPath)) <==>
      exists x, y :: x in ps && y in ps && x.overrides - {r.configPath} != y.overrides - {r.configPath};
  }

  lemma SeedReasonsIff(r: Methodology.Requirement, jobs: seq<Job>, names: seq<string>, seeds: string -> set<int>)
    requires forall v :: v in names <==> v in ValueSet(jobs, r.configPath)
    requires forall v :: v in names ==> seeds(v) == SeedsOf(JobsWith(jobs, r.configPath, v))
    ensures !Differ(names, seeds) <==> SameSeeds(r, jobs)
  {
    DifferIff(names, seeds);
  }

  lemma SeedsIndexedIff(r: Methodology.Requirement, jobs: seq<Job>, index: ValueIndex)
    requires Indexes(index, jobs, r.configPath)
    ensures !Differ(index.names, SeedsAt(index.byValue)) <==> SameSeeds(r, jobs)
  {
    NamesAreValues(jobs, r.configPath);
    var seeds := SeedsAt(index.byValue);
    forall v | v in index.names ensures seeds(v) == SeedsOf(JobsWith(jobs, r.configPath, v)) {
      assert v in index.byValue.Keys;
    }
    SeedReasonsIff(r, jobs, index.names, seeds);
  }

  lemma CountIndexedIff(r: Methodology.Requirement, jobs: seq<Job>, index: ValueIndex)
    requires Indexes(index, jobs, r.configPath)
    ensures CountReasons(r, |index.names|) == [] <==> CountFits(r, jobs)
  {
    NamesAreValues(jobs, r.configPath);
    CountReasonsIff(r, jobs, |index.names|);
  }

  lemma CountReasonsIff(r: Methodology.Requirement, jobs: seq<Job>, count: nat)
    requires count == |ValueSet(jobs, r.configPath)|
    ensures CountReasons(r, count) == [] <==> CountFits(r, jobs)
  {
  }

  /** No reason is given exactly when the comparison is sound. */
  lemma ComparableIff(r: Methodology.Requirement, jobs: seq<Job>, context: Context)
    ensures ComparabilityReasons(r, IndexOf(jobs, r.configPath), context) == [] <==>
      CountFits(r, jobs) && SameProtocol(r, jobs, context) && SameSeeds(r, jobs) && OneKey(r, jobs, KeyOf(context))
  {
    var index := IndexOf(jobs, r.configPath);
    ParticipatingIff(jobs, r.configPath);
    ProtocolReasonsIff(r, jobs, index.participating, context);
    KeyReasonsIff(r, jobs, index.participating, KeyOf(context));
    SeedsIndexedIff(r, jobs, index);
    CountIndexedIff(r, jobs, index);
    ReasonsSplit(r, index, context);
  }

  lemma ReasonsSplit(r: Methodology.Requirement, index: ValueIndex, context: Context)
    ensures var ps := index.participating;
      ComparabilityReasons(r, index, context) == [] <==>
        && CountReasons(r, |index.names|) == []
        && (forall i :: 0 <= i < |ps| ==> ps[i].contract == context.run)
        && !Differ(ps, BaseConfigOf()) && !Differ(ps, AxisOf(r.configPath))
        && !Differ(index.names, SeedsAt(index.byValue))
        && KeyReasons(ps, KeyOf(context)) == []
  {
  }
}
