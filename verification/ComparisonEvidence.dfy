/**
 What a passing evaluation is, which evidence and which jobs count, and what the report then says
 (comparison_checks.py and comparison.py), in terms of the fields of evaluations, jobs and artifacts.
 */
module ComparisonEvidence {
  import opened Wrappers
  import opened Order
  import opened Lists
  import opened ComparisonInputs
  import opened ComparisonVerdict
  import opened ComparisonReport
  import Methodology = MethodologyRepair
  import Decimal
  import Text

  // ---------------------------------------------------------------------------
  // Passing evaluations
  // ---------------------------------------------------------------------------

  /** A check that counts as passed: true, or a mapping whose first pass key has the value true. */
  predicate TrueCheck(c: Json) {
    || c == Bool(true)
    || (c.Object?
        && if "passed" in c.fields then c.fields["passed"] == Bool(true)
           else if "pass" in c.fields then c.fields["pass"] == Bool(true)
           else if "ok" in c.fields then c.fields["ok"] == Bool(true)
           else "success" in c.fields && c.fields["success"] == Bool(true))
  }

  /** The entries of a collection of checks, of either shape. */
  predicate HasCheck(checks: Json, c: Json) {
    || (checks.Object? && exists k :: k in checks.fields && checks.fields[k] == c)
    || (checks.Array? && c in checks.items)
  }

  lemma FirstOfFour(keys: seq<string>, a: string, b: string, c: string, d: string, fields: map<string, Json>)
    requires keys == [a, b, c, d]
    ensures FirstPresent(keys, fields) ==
      if a in fields then Some(fields[a]) else if b in fields then Some(fields[b])
      else if c in fields then Some(fields[c]) else if d in fields then Some(fields[d]) else None
  {
    assert keys[1..] == [b, c, d] && [b, c, d][1..] == [c, d] && [c, d][1..] == [d] && [d][1..] == [];
    assert FirstPresent([d], fields) == if d in fields then Some(fields[d]) else None;
    assert FirstPresent([c, d], fields) == if c in fields then Some(fields[c]) else FirstPresent([d], fields);
    assert FirstPresent([b, c, d], fields) == if b in fields then Some(fields[b]) else FirstPresent([c, d], fields);
  }

  lemma CheckIff(c: Json)
    ensures CheckPassed(c, PASS_KEYS) <==> TrueCheck(c)
  {
    if c.Object? {
      FirstOfFour(PASS_KEYS, "passed", "pass", "ok", "success", c.fields);
    }
  }

  /**
   An evaluation passes if and only if its `integrity_pass` is true or, without one, it has checks,
   at least one, and every one of them is passed.
   */
  lemma EvaluationPassesIff(e: Evaluation)
    ensures EvaluationPassed(e) <==>
      if "integrity_pass" in e then e["integrity_pass"] == Bool(true)
      else
        && "checks" in e && (exists c :: HasCheck(e["checks"], c))
        && forall c :: HasCheck(e["checks"], c) ==> TrueCheck(c)
  {
    if "integrity_pass" !in e && "checks" in e {
      var checks := e["checks"];
      forall c ensures CheckPassed(c, PASS_KEYS) <==> TrueCheck(c) { CheckIff(c); }
      if checks.Object? {
        ObjectChecksIff(checks);
      } else if checks.Array? {
        ArrayChecksIff(checks);
      }
    }
  }

  lemma ObjectChecksIff(checks: Json)
    requires checks.Object?
    ensures checks.fields != map[] <==> exists c :: HasCheck(checks, c)
    ensures (forall k :: k in checks.fields ==> TrueCheck(checks.fields[k])) <==>
      forall c :: HasCheck(checks, c) ==> TrueCheck(c)
  {
    forall k | k in checks.fields ensures HasCheck(checks, checks.fields[k]) {
    }
    if checks.fields != map[] {
      var k :| k in checks.fields;
      assert HasCheck(checks, checks.fields[k]);
    }
  }

  lemma ArrayChecksIff(checks: Json)
    requires checks.Array?
    ensures checks.items != [] <==> exists c :: HasCheck(checks, c)
    ensures (forall i :: 0 <= i < |checks.items| ==> TrueCheck(checks.items[i])) <==>
      forall c :: HasCheck(checks, c) ==> TrueCheck(c)
  {
    forall i | 0 <= i < |checks.items| ensures HasCheck(checks, checks.items[i]) {
    }
    if checks.items != [] { assert HasCheck(checks, checks.items[0]); }
  }

  /** One check that is false, a text, a number, a list or nothing keeps the evaluation from passing. */
  lemma OneFailedCheck(e: Evaluation, c: Json)
    requires "integrity_pass" !in e && "checks" in e && HasCheck(e["checks"], c)
    requires c == Bool(false) || c.Str? || c.Number? || c.Array? || c.Null?
    ensures !EvaluationPassed(e)
  {
    EvaluationPassesIff(e);
    assert !TrueCheck(c);
  }

  /** For instance one passed and one failed check. */
  lemma MixedChecksFail(e: Evaluation)
    requires "integrity_pass" !in e && "checks" in e
    requires e["checks"] == Object(map["schema" := Bool(true), "leakage" := Bool(false)])
    ensures !EvaluationPassed(e)
  {
    assert "leakage" in e["checks"].fields;
    assert HasCheck(e["checks"], Bool(false));
    OneFailedCheck(e, Bool(false));
  }

  /** The evaluation names no other contract than the run's. */
  predicate SameContract(e: Evaluation, run: Binding) {
    && ("contract_id" in e ==> e["contract_id"] == Str(run.id))
    && ("contract_version" in e ==> e["contract_version"] == Str(run.version))
    && ("contract_digest" in e ==> e["contract_digest"] == Str(run.digest))
  }

  predicate Has(e: map<string, Json>, key: string) { key in e && e[key] != Null }

  /** The shapes that carry the primary metric, the first of which counts. */
  lemma MetricIs(e: Evaluation, key: string)
    ensures var m := ResolvedMetric(e, key);
      if "metrics" in e && e["metrics"].Object? && Has(e["metrics"].fields, key) then m == e["metrics"].fields[key]
      else if Has(e, key) then m == e[key]
      else if "primary_metric" in e && e["primary_metric"].Object? then
        m == if "name" in e["primary_metric"].fields && e["primary_metric"].fields["name"] == Str(key)
                && "value" in e["primary_metric"].fields then e["primary_metric"].fields["value"] else Null
      else if "primary_metric" in e && e["primary_metric"] == Str(key) && "primary_value" in e then
        m == e["primary_value"]
      else m == Null
  {
  }

  /** The reason of a job, case by case; without one it passes. */
  lemma ReasonIs(job: Job, context: Context)
    ensures var o := OutcomeIn(context)(job);
      var found := job.jobId in context.evidence && context.evidence[job.jobId].artifact.Some?;
      && (o.passing <==> o.reason.None?)
      && if !found then o.reason == Some(NoArtifact)
         else if context.evidence[job.jobId].evaluation.None? then o.reason == Some(Unreadable)
         else
           var e := context.evidence[job.jobId].evaluation.value;
           if !SameContract(e, context.run) then o.reason == Some(ContractMismatch)
           else if job.status != Succeeded then o.reason == Some(StatusIs(job.status))
           else if !EvaluationPassed(e) then o.reason == Some(EvaluatorFailed)
           else if context.metric.Some? && ResolvedMetric(e, context.metric.value) == Null then
             o.reason == Some(MetricMissing(context.metric.value))
           else o.reason.None?
  {
    var evidence := EvidenceFor(context, job.jobId);
    if evidence.evaluation.Some? { SameContractIff(evidence.evaluation.value, context.run); }
  }

  lemma SameContractIff(e: Evaluation, run: Binding)
    ensures ContractMatches(e, run) <==> SameContract(e, run)
  {
  }

  /** The document of a job says who it is, what its evidence is and what was made of it. */
  lemma DocumentIs(job: Job, context: Context)
    ensures var d := OutcomeIn(context)(job).document; var evidence := EvidenceFor(context, job.jobId);
      && d.jobId == job.jobId && d.variantName == job.variantName && d.seed == job.seed && d.status == job.status
      && d.evaluationUri == (if evidence.artifact.Some? then Some(evidence.artifact.value.uri) else None)
      && d.artifactDigest == (if evidence.artifact.Some? then Some(evidence.artifact.value.sha) else None)
      && (evidence.artifact.None? || evidence.evaluation.None? ==> d.integrityPass.None? && d.primaryMetric == Null)
      && (evidence.artifact.Some? && evidence.evaluation.Some? ==>
            && d.integrityPass == Some(EvaluationPassed(evidence.evaluation.value))
            && d.primaryMetric ==
               if SameContract(evidence.evaluation.value, context.run) && context.metric.Some?
               then ResolvedMetric(evidence.evaluation.value, context.metric.value) else Null)
  {
    var evidence := EvidenceFor(context, job.jobId);
    if evidence.evaluation.Some? { SameContractIff(evidence.evaluation.value, context.run); }
  }

  /** An attested key is a text that is not blank. */
  lemma AttestedKeyIs(job: Job, context: Context, text: string)
    ensures KeyOf(context)(job) == Some(text) <==>
      && job.jobId in context.evidence && context.evidence[job.jobId].evaluation.Some?
      && "comparison_key" in context.evidence[job.jobId].evaluation.value
      && context.evidence[job.jobId].evaluation.value["comparison_key"] == Str(text) && !Text.Blank(text)
  {
  }

  // ---------------------------------------------------------------------------
  // The jobs and the evidence that count
  // ---------------------------------------------------------------------------

  /** Created later, or at the same time with the greater id. */
  predicate CreatedAfter(a: Job, b: Job) {
    a.createdAt > b.createdAt || (a.createdAt == b.createdAt && a.jobId != b.jobId && StrLeq(b.jobId, a.jobId))
  }

  ghost predicate IsLast(n: Job, jobs: seq<Job>) { n in jobs && forall k :: k in jobs ==> !CreatedAfter(k, n) }

  lemma LatestIsLast(jobs: seq<Job>)
    requires jobs != []
    ensures IsLast(Latest(jobs), jobs)
  {
    forall k | k in jobs ensures !CreatedAfter(k, Latest(jobs)) {
      LatestIsGreatest(jobs, k);
      if StrLeq(Latest(jobs).jobId, k.jobId) && StrLeq(k.jobId, Latest(jobs).jobId) {
        StrLeqAntisymmetric(k.jobId, Latest(jobs).jobId);
      }
    }
  }

  /** The wave is the jobs of the action of the job created last, by id. */
  lemma WaveIff(jobs: seq<Job>, last: Job, j: Job)
    requires IdsIdentify(jobs) && IsLast(last, jobs)
    ensures j in LatestWave(jobs) <==> j in jobs && j.actionId == last.actionId
    ensures Sorted(LatestWave(jobs), ById())
  {
    var n := Latest(jobs);
    LatestIsLast(jobs);
    StrLeqTotal(n.jobId, last.jobId);
    assert !CreatedAfter(n, last) && !CreatedAfter(last, n);
    assert n == last;
    var wave := Filter(jobs, OfAction(n.actionId));
    SameElements(LatestWave(jobs), wave);
    ByIdOrders();
    SortSorts(wave, ById());
  }

  lemma NoJobsNoWave()
    ensures LatestWave([]) == []
  {
  }

  /** The override of a job that is compared: a text, a number or a truth value, as text. */
  lemma ComparedValueIs(job: Job, path: string, v: string)
    ensures ValueOf(job, path) == Some(v) <==>
      path in job.overrides
      && (job.overrides[path] == Str(v) || job.overrides[path] == Number(v)
          || (job.overrides[path] == Bool(true) && v == "True")
          || (job.overrides[path] == Bool(false) && v == "False"))
  {
  }

  /** An evaluation artifact of the job. */
  predicate Evaluates(a: Artifact, jobId: string, fileName: string -> string) {
    a.jobId == Some(jobId) && fileName(a.uri) == "evaluation.json"
  }

  /** Before the other by location, and by digest at one location. */
  predicate Precedes(a: Artifact, b: Artifact) {
    if a.uri == b.uri then StrLeq(a.sha, b.sha) else StrLeq(a.uri, b.uri)
  }

  /** The evidence of a job is its first evaluation artifact, and what the reader makes of that one. */
  lemma EvidenceIsFirst(artifacts: seq<Artifact>, fileName: string -> string, read: Reader, jobId: string)
    ensures var evidence := EvidenceOf(artifacts, fileName, read)(jobId);
      match evidence.artifact
      case None => evidence.evaluation.None? && forall a :: a in artifacts ==> !Evaluates(a, jobId, fileName)
      case Some(a) =>
        && a in artifacts && Evaluates(a, jobId, fileName)
        && (forall b :: b in artifacts && Evaluates(b, jobId, fileName) ==> Precedes(a, b))
        && evidence.evaluation == read(a.uri, a.sha)
  {
    var kept := Filter(artifacts, EvaluationOf(jobId, fileName));
    var sorted := EvaluationsFor(artifacts, jobId, fileName);
    SameElements(sorted, kept);
    ByUriOrders();
    SortSorts(kept, ByUriThenSha());
    if sorted == [] {
      forall a | a in artifacts ensures !Evaluates(a, jobId, fileName) { assert a !in kept; }
    } else {
      assert sorted[0] in kept;
      forall b | b in artifacts && Evaluates(b, jobId, fileName) ensures Precedes(sorted[0], b) {
        assert b in sorted;
        var i :| 0 <= i < |sorted| && sorted[i] == b;
        if i == 0 { StrLeqTotal(b.sha, b.sha); } else { assert ByUriThenSha()(sorted[0], sorted[i]); }
      }
    }
  }

  /** The context of a report: every job of the wave has its evidence, and no other job has any. */
  lemma ContextIsOfWave(run: Binding, metric: Json, wave: seq<Job>, artifacts: seq<Artifact>,
      fileName: string -> string, read: Reader, id: string)
    ensures var context := ContextFor(run, metric, wave, artifacts, fileName, read);
      && context.run == run
      && (context.metric.Some? <==> metric.Str? && metric.text != "")
      && (context.metric.Some? ==> metric == Str(context.metric.value))
      && (id in context.evidence <==> exists j :: j in wave && j.jobId == id)
      && (id in context.evidence ==> context.evidence[id] == EvidenceOf(artifacts, fileName, read)(id))
  {
  }

  // ---------------------------------------------------------------------------
  // What the report says
  // ---------------------------------------------------------------------------

  /** The case that a reason against a requirement names. */
  ghost predicate Applies(reason: RequirementReason, r: Methodology.Requirement, jobs: seq<Job>, context: Context) {
    var count, path := |ValueSet(jobs, r.configPath)|, r.configPath;
    match reason
    case NoOverride => count == 0
    case TooFew(minimum, found) => minimum == r.minimum && found == count && count < r.minimum
    case TooMany(maximum, found) => r.maximum == Some(maximum) && found == count && count > maximum
    case BindingDiffers => exists j :: Compared(jobs, path, j) && j.contract != context.run
    case BaseConfigDiffers => ConfigsDiffer(jobs, path)
    case OtherAxesDiffer => AxesDiffer(jobs, path)
    case SeedSetsDiffer => !SameSeeds(r, jobs)
    case KeyMissing => SomeKeyMissing(jobs, path, KeyOf(context))
    case KeysDiffer => !SomeKeyMissing(jobs, path, KeyOf(context)) && AttestedDiffer(jobs, path, KeyOf(context))
  }

  ghost predicate ConfigsDiffer(jobs: seq<Job>, path: string) {
    exists j, k :: Compared(jobs, path, j) && Compared(jobs, path, k) && j.baseConfig != k.baseConfig
  }

  ghost predicate AxesDiffer(jobs: seq<Job>, path: string) {
    exists j, k :: Compared(jobs, path, j) && Compared(jobs, path, k) && j.overrides - {path} != k.overrides - {path}
  }

  ghost predicate SomeKeyMissing(jobs: seq<Job>, path: string, key: Job -> Option<string>) {
    exists j :: Compared(jobs, path, j) && key(j).None?
  }

  ghost predicate AttestedDiffer(jobs: seq<Job>, path: string, key: Job -> Option<string>) {
    exists j, k :: Compared(jobs, path, j) && Compared(jobs, path, k) && key(j) != key(k)
  }

  lemma CountReasonIff(r: Methodology.Requirement, jobs: seq<Job>, context: Context, reason: RequirementReason)
    requires reason.NoOverride? || reason.TooFew? || reason.TooMany?
    ensures reason in ComparabilityReasons(r, IndexOf(jobs, r.configPath), context) <==>
      Applies(reason, r, jobs, context)
  {
    GivenParts(r, IndexOf(jobs, r.configPath), context, reason);
    NamesAreValues(jobs, r.configPath);
  }

  lemma BindingReasonIff(r: Methodology.Requirement, jobs: seq<Job>, context: Context, reason: RequirementReason)
    requires reason.BindingDiffers?
    ensures reason in ComparabilityReasons(r, IndexOf(jobs, r.configPath), context) <==>
      Applies(reason, r, jobs, context)
  {
    var ps, path := IndexOf(jobs, r.configPath).participating, r.configPath;
    GivenParts(r, IndexOf(jobs, path), context, reason);
    ParticipatingIff(jobs, path);
    SomeParticipant(ps, jobs, path, (j: Job) => j.contract != context.run);
  }

  lemma BaseConfigReasonIff(r: Methodology.Requirement, jobs: seq<Job>, context: Context, reason: RequirementReason)
    requires reason.BaseConfigDiffers?
    ensures reason in ComparabilityReasons(r, IndexOf(jobs, r.configPath), context) <==>
      Applies(reason, r, jobs, context)
  {
    var ps, path := IndexOf(jobs, r.configPath).participating, r.configPath;
    GivenParts(r, IndexOf(jobs, path), context, reason);
    ParticipatingIff(jobs, path);
    ConfigsDifferIff(ps, jobs, path);
  }

  lemma AxesReasonIff(r: Methodology.Requirement, jobs: seq<Job>, context: Context, reason: RequirementReason)
    requires reason.OtherAxesDiffer?
    ensures reason in ComparabilityReasons(r, IndexOf(jobs, r.configPath), context) <==>
      Applies(reason, r, jobs, context)
  {
    var ps, path := IndexOf(jobs, r.configPath).participating, r.configPath;
    GivenParts(r, IndexOf(jobs, path), context, reason);
    ParticipatingIff(jobs, path);
    AxesDifferIff(ps, jobs, path);
  }

  lemma SeedsReasonIff(r: Methodology.Requirement, jobs: seq<Job>, context: Context, reason: RequirementReason)
    requires reason.SeedSetsDiffer?
    ensures reason in ComparabilityReasons(r, IndexOf(jobs, r.configPath), context) <==>
      Applies(reason, r, jobs, context)
  {
    var ps, path := IndexOf(jobs, r.configPath).participating, r.configPath;
    GivenParts(r, IndexOf(jobs, path), context, reason);
    SeedsIndexedIff(r, jobs, IndexOf(jobs, path));
  }

  lemma KeyReasonIff(r: Methodology.Requirement, jobs: seq<Job>, context: Context, reason: RequirementReason)
    requires reason.KeyMissing? || reason.KeysDiffer?
    ensures reason in ComparabilityReasons(r, IndexOf(jobs, r.configPath), context) <==>
      Applies(reason, r, jobs, context)
  {
    var ps, path := IndexOf(jobs, r.configPath).participating, r.configPath;
    GivenParts(r, IndexOf(jobs, path), context, reason);
    ParticipatingIff(jobs, path);
    KeyGivenIff(ps, jobs, path, KeyOf(context));
  }

  lemma ConfigsDifferIff(ps: seq<Job>, jobs: seq<Job>, path: string)
    requires forall j :: j in ps <==> Compared(jobs, path, j)
    ensures Differ(ps, BaseConfigOf()) <==> ConfigsDiffer(jobs, path)
  {
    DifferIff(ps, BaseConfigOf());
    if x, y :| x in ps && y in ps && BaseConfigOf()(x) != BaseConfigOf()(y) {
      assert Compared(jobs, path, x) && Compared(jobs, path, y) && x.baseConfig != y.baseConfig;
    }
    if ConfigsDiffer(jobs, path) {
      var j, k :| Compared(jobs, path, j) && Compared(jobs, path, k) && j.baseConfig != k.baseConfig;
      assert j in ps && k in ps && BaseConfigOf()(j) != BaseConfigOf()(k);
    }
  }

  lemma AxesDifferIff(ps: seq<Job>, jobs: seq<Job>, path: string)
    requires forall j :: j in ps <==> Compared(jobs, path, j)
    ensures Differ(ps, AxisOf(path)) <==> AxesDiffer(jobs, path)
  {
    DifferIff(ps, AxisOf(path));
    if x, y :| x in ps && y in ps && AxisOf(path)(x) != AxisOf(path)(y) {
      assert Compared(jobs, path, x) && Compared(jobs, path, y) && x.overrides - {path} != y.overrides - {path};
    }
    if AxesDiffer(jobs, path) {
      var j, k :|
        Compared(jobs, path, j) && Compared(jobs, path, k) && j.overrides - {path} != k.overrides - {path};
      assert j in ps && k in ps && AxisOf(path)(j) != AxisOf(path)(k);
    }
  }

  /** The reasons given against a requirement are those that apply. */
  lemma ReasonGivenIff(r: Methodology.Requirement, jobs: seq<Job>, context: Context, reason: RequirementReason)
    ensures reason in ComparabilityReasons(r, IndexOf(jobs, r.configPath), context) <==>
      Applies(reason, r, jobs, context)
  {
    if reason.NoOverride? || reason.TooFew? || reason.TooMany? {
      CountReasonIff(r, jobs, context, reason);
    } else if reason.BindingDiffers? {
      BindingReasonIff(r, jobs, context, reason);
    } else if reason.BaseConfigDiffers? {
      BaseConfigReasonIff(r, jobs, context, reason);
    } else if reason.OtherAxesDiffer? {
      AxesReasonIff(r, jobs, context, reason);
    } else if reason.SeedSetsDiffer? {
      SeedsReasonIff(r, jobs, context, reason);
    } else {
      KeyReasonIff(r, jobs, context, reason);
    }
  }

  lemma SomeParticipant(ps: seq<Job>, jobs: seq<Job>, path: string, test: Job -> bool)
    requires forall j :: j in ps <==> Compared(jobs, path, j)
    ensures (exists i :: 0 <= i < |ps| && test(ps[i])) <==> exists j :: Compared(jobs, path, j) && test(j)
  {
    if i :| 0 <= i < |ps| && test(ps[i]) { assert Compared(jobs, path, ps[i]); }
    if j :| Compared(jobs, path, j) && test(j) {
      var i :| 0 <= i < |ps| && ps[i] == j;
    }
  }

  lemma KeyGivenIff(ps: seq<Job>, jobs: seq<Job>, path: string, key: Job -> Option<string>)
    requires forall j :: j in ps <==> Compared(jobs, path, j)
    ensures KeyMissing in KeyReasons(ps, key) <==> SomeKeyMissing(jobs, path, key)
    ensures KeysDiffer in KeyReasons(ps, key) <==>
      !SomeKeyMissing(jobs, path, key) && AttestedDiffer(jobs, path, key)
  {
    SomeParticipant(ps, jobs, path, (j: Job) => key(j).None?);
    DifferIff(ps, KeyText(key));
    if forall j :: Compared(jobs, path, j) ==> key(j).Some? {
      forall j, k | j in ps && k in ps ensures KeyText(key)(j) == KeyText(key)(k) <==> key(j) == key(k) {
        assert Compared(jobs, path, j) && Compared(jobs, path, k);
      }
    }
  }

  lemma GivenParts(r: Methodology.Requirement, index: ValueIndex, context: Context, reason: RequirementReason)
    ensures var ps, count := index.participating, |index.names|;
      reason in ComparabilityReasons(r, index, context) <==>
        match reason
        case NoOverride => count == 0
        case TooFew(m, n) => m == r.minimum && n == count && count < r.minimum
        case TooMany(m, n) => r.maximum == Some(m) && n == count && count > m
        case BindingDiffers => exists i :: 0 <= i < |ps| && ps[i].contract != context.run
        case BaseConfigDiffers => Differ(ps, BaseConfigOf())
        case OtherAxesDiffer => Differ(ps, AxisOf(r.configPath))
        case SeedSetsDiffer => Differ(index.names, SeedsAt(index.byValue))
        case _ => reason in KeyReasons(ps, KeyOf(context))
  {
    var ps := index.participating;
    CountGiven(r, |index.names|, reason);
    KeysGiven(ps, KeyOf(context), reason);
    InSix(CountReasons(r, |index.names|),
      When(exists i :: 0 <= i < |ps| && ps[i].contract != context.run, BindingDiffers),
      When(Differ(ps, BaseConfigOf()), BaseConfigDiffers),
      When(Differ(ps, AxisOf(r.configPath)), OtherAxesDiffer),
      When(Differ(index.names, SeedsAt(index.byValue)), SeedSetsDiffer),
      KeyReasons(ps, KeyOf(context)), reason);
  }

  lemma KeysGiven(ps: seq<Job>, key: Job -> Option<string>, reason: RequirementReason)
    ensures reason in KeyReasons(ps, key) ==> reason.KeyMissing? || reason.KeysDiffer?
  {
  }

  lemma InSix<T>(a: seq<T>, b: seq<T>, c: seq<T>, d: seq<T>, e: seq<T>, f: seq<T>, x: T)
    ensures x in a + b + c + d + e + f <==> x in a || x in b || x in c || x in d || x in e || x in f
  {
  }

  lemma CountGiven(r: Methodology.Requirement, count: nat, reason: RequirementReason)
    ensures reason in CountReasons(r, count) <==>
      match reason
      case NoOverride => count == 0
      case TooFew(m, n) => m == r.minimum && n == count && count < r.minimum
      case TooMany(m, n) => r.maximum == Some(m) && n == count && count > m
      case _ => false
  {
  }

  /** A value reason stands in the report exactly for an unsatisfied value of the requirement. */
  lemma {:induction false} ValueReasonsAre(id: string, values: seq<ValueDocument>, value: string, why: ValueReason)
    ensures OfValue(id, value, why) in ValuesReasons(id, values) <==>
      exists v :: v in values && !v.satisfied && v.value == value && why in v.reasons
    ensures forall r :: r in ValuesReasons(id, values) ==> r.OfValue? && r.id == id
  {
    if values != [] {
      var before, v := values[..|values| - 1], values[|values| - 1];
      assert values == before + [v];
      ValueReasonsAre(id, before, value, why);
      OwnReasons(v.reasons, FromValue(id, v.value), why);
    }
  }

  lemma OwnReasons<T(!new)>(reasons: seq<T>, f: T -> ReportReason, why: T)
    requires forall a, b :: f(a) == f(b) ==> a == b
    ensures f(why) in Map(reasons, f) <==> why in reasons
    ensures forall r :: r in Map(reasons, f) ==> exists w :: w in reasons && r == f(w)
  {
    var mapped := Map(reasons, f);
    if why in reasons {
      var i :| 0 <= i < |reasons| && reasons[i] == why;
      assert mapped[i] == f(why);
    }
    if f(why) in mapped {
      var i :| 0 <= i < |mapped| && mapped[i] == f(why);
      assert f(reasons[i]) == f(why);
    }
    forall r | r in mapped ensures exists w :: w in reasons && r == f(w) {
      var i :| 0 <= i < |mapped| && mapped[i] == r;
      assert reasons[i] in reasons;
    }
  }

  /** A requirement's reason, or a value's, stands in the report exactly if a document has it. */
  lemma {:induction false} ReportReasonsAre(documents: seq<RequirementDocument>, id: string, reason: RequirementReason,
      value: string, why: ValueReason)
    ensures OfRequirement(id, reason) in ReportReasons(documents) <==>
      exists d :: d in documents && d.id == id && reason in d.reasons
    ensures OfValue(id, value, why) in ReportReasons(documents) <==>
      exists d :: d in documents && d.id == id && OfValue(id, value, why) in ValuesReasons(id, d.values)
  {
    if documents != [] {
      var before, d := documents[..|documents| - 1], documents[|documents| - 1];
      assert documents == before + [d];
      ReportReasonsAre(before, id, reason, value, why);
      OwnReasons(d.reasons, FromRequirement(d.id), reason);
      ValueReasonsAre(d.id, d.values, value, why);
      DocumentReasonsAre(d, id, reason, value, why);
    }
  }

  lemma DocumentReasonsAre(d: RequirementDocument, id: string, reason: RequirementReason, value: string,
      why: ValueReason)
    ensures OfRequirement(id, reason) in DocumentReasons(d) <==> d.id == id && reason in d.reasons
    ensures OfValue(id, value, why) in DocumentReasons(d) <==>
      d.id == id && OfValue(id, value, why) in ValuesReasons(id, d.values)
  {
    OwnReasons(d.reasons, FromRequirement(d.id), reason);
    ValueReasonsAre(d.id, d.values, value, why);
  }

  /** A job's reason stands in the document of its value exactly if the job does not pass for it. */
  lemma {:induction false} JobReasonsAre(outcomes: seq<Outcome>, id: string, reason: JobReason)
    ensures ForJob(id, reason) in JobReasons(outcomes) <==>
      exists o :: o in outcomes && !o.passing && o.document.jobId == id && o.reason == Some(reason)
    ensures NoPassingJob !in JobReasons(outcomes)
  {
    if outcomes != [] {
      assert outcomes == outcomes[..|outcomes| - 1] + [outcomes[|outcomes| - 1]];
      JobReasonsAre(outcomes[..|outcomes| - 1], id, reason);
    }
  }

  /** The document of a value: its jobs by id, and the closing reason exactly if none passes. */
  lemma ValueDocumentIs(value: string, jobs: seq<Job>, context: Context)
    ensures var d := ValueDocumentOf(value, jobs, context);
      && d.value == value && |d.jobs| == |jobs|
      && (forall i, j :: 0 <= i < j < |d.jobs| ==> StrLeq(d.jobs[i].jobId, d.jobs[j].jobId))
      && (forall x :: x in d.jobs <==> exists j :: j in jobs && x == OutcomeIn(context)(j).document)
      && (NoPassingJob in d.reasons <==> !d.satisfied)
  {
    var ordered := Sort(jobs, ById());
    var outcomes := Map(ordered, OutcomeIn(context));
    var d := ValueDocumentOf(value, jobs, context);
    ByIdOrders();
    SortSorts(jobs, ById());
    SameElements(ordered, jobs);
    forall i | 0 <= i < |ordered| ensures d.jobs[i] == OutcomeIn(context)(ordered[i]).document {
      assert outcomes[i].document == DocumentOf()(outcomes[i]);
    }
    forall x ensures x in d.jobs <==> exists j :: j in jobs && x == OutcomeIn(context)(j).document {
      if x in d.jobs {
        var i :| 0 <= i < |d.jobs| && d.jobs[i] == x;
        assert ordered[i] in jobs;
      }
      if j :| j in jobs && x == OutcomeIn(context)(j).document {
        assert j in ordered;
        var i :| 0 <= i < |ordered| && ordered[i] == j;
      }
    }
    JobReasonsAre(outcomes, "", NoArtifact);
  }

  lemma ValueListed(r: Methodology.Requirement, jobs: seq<Job>, context: Context, v: string)
    requires v in IndexOf(jobs, r.configPath).names
    ensures ValueDocumentIn(IndexOf(jobs, r.configPath).byValue, context)(v) ==
      ValueDocumentOf(v, JobsWith(jobs, r.configPath, v), context)
  {
    assert v in IndexOf(jobs, r.configPath).byValue.Keys;
  }

  /** The compared values, in their order. */
  ghost predicate InTextOrder(names: seq<string>, members: set<string>) {
    && (forall i, j :: 0 <= i < j < |names| ==> StrLeq(names[i], names[j]))
    && forall v :: v in names <==> v in members
  }

  lemma NamesInOrder(jobs: seq<Job>, path: string)
    ensures InTextOrder(Sort(NamesOf(jobs, path), TextOrder()), ValueSet(jobs, path))
  {
    var names := Sort(NamesOf(jobs, path), TextOrder());
    TextOrdered();
    SortSorts(NamesOf(jobs, path), TextOrder());
    SameElements(names, NamesOf(jobs, path));
    NamesAreValues(jobs, path);
    forall i, j | 0 <= i < j < |names| ensures StrLeq(names[i], names[j]) { assert TextOrder()(names[i], names[j]); }
  }

  /** The document of a requirement names it, and has the document of every compared value, in order. */
  lemma RequirementDocumentIs(r: Methodology.Requirement, jobs: seq<Job>, context: Context) returns (names: seq<string>)
    ensures InTextOrder(names, ValueSet(jobs, r.configPath))
    ensures var d := RequirementDocumentIn(jobs, context)(r);
      && d.id == r.id && d.configPath == r.configPath && |d.values| == |names|
      && forall i :: 0 <= i < |names| ==>
          d.values[i] == ValueDocumentOf(names[i], JobsWith(jobs, r.configPath, names[i]), context)
  {
    var index := IndexOf(jobs, r.configPath);
    names := Sort(index.names, TextOrder());
    NamesInOrder(jobs, r.configPath);
    SameElements(names, index.names);
    forall i | 0 <= i < |names|
      ensures ValueDocumentIn(index.byValue, context)(names[i]) ==
        ValueDocumentOf(names[i], JobsWith(jobs, r.configPath, names[i]), context)
    {
      assert names[i] in names;
      ValueListed(r, jobs, context, names[i]);
    }
  }

  /** There is a report exactly if the contract has a comparison across jobs. */
  lemma ReportGivenIff(run: Binding, contract: Contract, jobs: seq<Job>, artifacts: seq<Artifact>,
      fileName: string -> string, read: Reader)
    ensures ReportFor(run, contract, jobs, artifacts, fileName, read).Some? <==>
      contract.requirements.Some? &&
      exists r :: (r in contract.requirements.value
        && r.mode == Methodology.Comparison && r.scope == Methodology.AcrossJobs)
  {
    if contract.requirements.Some? {
      var rs := contract.requirements.value;
      AcrossJobsAre(rs);
      if AcrossJobs(rs) != [] { assert AcrossJobs(rs)[0] in AcrossJobs(rs); }
      forall r | r in rs
        ensures Methodology.Across(r) <==> r.mode == Methodology.Comparison && r.scope == Methodology.AcrossJobs
      {
      }
    }
  }

  /** It has their documents, by id. */
  lemma ReportDocumentsAre(run: Binding, contract: Contract, jobs: seq<Job>, artifacts: seq<Artifact>,
      fileName: string -> string, read: Reader)
    requires contract.requirements.Some? && AcrossJobs(contract.requirements.value) != []
    ensures var report := ReportFor(run, contract, jobs, artifacts, fileName, read).value;
      var rs, wave := AcrossJobs(contract.requirements.value), LatestWave(jobs);
      && report.contract == contract.binding && |report.requirements| == |rs|
      && (forall i, j :: 0 <= i < j < |rs| ==> StrLeq(rs[i].id, rs[j].id))
      && forall i :: 0 <= i < |rs| ==>
          report.requirements[i] ==
            RequirementDocumentIn(wave, ContextFor(run, contract.metric, wave, artifacts, fileName, read))(rs[i])
  {
    var rs := contract.requirements.value;
    RequirementsOrdered();
    SortSorts(Filter(rs, (r: Methodology.Requirement) => Methodology.Across(r)), ByRequirementId());
    OrderedById(AcrossJobs(rs));
  }

  lemma OrderedById(rs: seq<Methodology.Requirement>)
    requires Sorted(rs, ByRequirementId())
    ensures forall i, j :: 0 <= i < j < |rs| ==> StrLeq(rs[i].id, rs[j].id)
  {
    forall i, j | 0 <= i < j < |rs| ensures StrLeq(rs[i].id, rs[j].id) { assert ByRequirementId()(rs[i], rs[j]); }
  }

  lemma RequirementsOrdered()
    ensures TotalPreorder(ByRequirementId())
  {
    var leq := ByRequirementId();
    forall a: Methodology.Requirement, b: Methodology.Requirement ensures leq(a, b) || leq(b, a) {
      StrLeqTotal(a.id, b.id);
    }
    forall a: Methodology.Requirement, b: Methodology.Requirement, c: Methodology.Requirement | leq(a, b) && leq(b, c)
      ensures leq(a, c)
    {
      StrLeqTransitive(a.id, b.id, c.id);
    }
  }

  /** The line of a job in the fingerprint: id, seed, variant, status and digests, in this order. */
  lemma LineIs(job: Job, a: string, b: string)
    requires job.seed == 7 && job.status == Succeeded
    ensures Line(job, [a, b]) == job.jobId + ":7:" + job.variantName + ":succeeded:" + a + "," + b
    ensures Line(job, []) == job.jobId + ":7:" + job.variantName + ":succeeded:"
  {
    assert [a, b][1..] == [b];
    assert Text.Join(",", [a, b]) == a + "," + b;
    SevenShown();
    LineAssociates(job.jobId, job.variantName, a + "," + b);
    LineAssociates(job.jobId, job.variantName, "");
  }

  lemma SevenShown()
    ensures Decimal.ShowInt(7) == "7"
  {
  }

  lemma LineAssociates(id: string, variant: string, digests: string)
    ensures id + ":" + "7" + ":" + variant + ":" + "succeeded" + ":" + digests ==
      id + ":7:" + variant + ":succeeded:" + digests
  {
    assert ":" + "7" + ":" == ":7:" && ":" + "succeeded" + ":" == ":succeeded:";
  }
}
