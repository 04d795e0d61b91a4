/**
 The run-level comparison document (comparison.py): what it says, that it says it whatever the
 order of the records, and that "satisfied" means a sound comparison.
 */
module ComparisonReport {
  import opened Wrappers
  import opened Order
  import opened Lists
  import opened ComparisonInputs
  import opened ComparisonVerdict
  import Methodology = MethodologyRepair

  /** The reader of ingested artifacts: it sees only the location and the recorded digest. */
  type Reader = (string, string) -> Option<Evaluation>

  // ---------------------------------------------------------------------------
  // One compared value
  // ---------------------------------------------------------------------------

  function JobReasons(outcomes: seq<Outcome>): seq<ValueReason> {
    if outcomes == [] then []
    else
      var o, before := outcomes[|outcomes| - 1], JobReasons(outcomes[..|outcomes| - 1]);
      if !o.passing && o.reason.Some? then before + [ForJob(o.document.jobId, o.reason.value)] else before
  }

  predicate AnyPassing(outcomes: seq<Outcome>) { exists i :: 0 <= i < |outcomes| && outcomes[i].passing }

  function DocumentOf(): Outcome -> JobDocument { (o: Outcome) => o.document }

  function Adjudicate(value: string, outcomes: seq<Outcome>): ValueDocument {
    var passed := AnyPassing(outcomes);
    ValueDocument(value, Map(outcomes, DocumentOf()), passed,
                  JobReasons(outcomes) + if passed then [] else [NoPassingJob])
  }

  function ValueDocumentOf(value: string, jobs: seq<Job>, context: Context): ValueDocument {
    Adjudicate(value, Map(Sort(jobs, ById()), OutcomeIn(context)))
  }

  /** The loop of `_value_document`, over the outcomes of the jobs in order. */
  method BuildValueDocument(value: string, outcomes: seq<Outcome>) returns (document: ValueDocument)
    ensures document == Adjudicate(value, outcomes)
  {
    var documents: seq<JobDocument>, reasons: seq<ValueReason>, passed := [], [], false;
    for i := 0 to |outcomes|
      invariant |documents| == i && forall k :: 0 <= k < i ==> documents[k] == outcomes[k].document
      invariant reasons == JobReasons(outcomes[..i])
      invariant passed <==> exists k :: 0 <= k < i && outcomes[k].passing
    {
      var o := outcomes[i];
      assert outcomes[..i + 1][..i] == outcomes[..i];
      documents := documents + [o.document];
      if o.passing {
        passed := true;
      } else if o.reason.Some? {
        reasons := reasons + [ForJob(o.document.jobId, o.reason.value)];
      }
    }
    assert outcomes[..|outcomes|] == outcomes;
    MapIs(outcomes, documents, DocumentOf());
    document := ValueDocument(value, documents, passed, reasons + if passed then [] else [NoPassingJob]);
  }

  // ---------------------------------------------------------------------------
  // One requirement
  // ---------------------------------------------------------------------------

  function ValueDocumentIn(byValue: map<string, seq<Job>>, context: Context): string -> ValueDocument {
    (v: string) => ValueDocumentOf(v, ListedFor(byValue, v), context)
  }

  function Decide(r: Methodology.Requirement, reasons: seq<RequirementReason>, values: seq<ValueDocument>):
    RequirementDocument
  {
    RequirementDocument(r.id, r.configPath,
      values != [] && reasons == [] && forall i :: 0 <= i < |values| ==> values[i].satisfied, reasons, values)
  }

  function RequirementDocumentOf(r: Methodology.Requirement, index: ValueIndex, context: Context): RequirementDocument {
    Decide(r, ComparabilityReasons(r, index, context),
      Map(Sort(index.names, TextOrder()), ValueDocumentIn(index.byValue, context)))
  }

  function RequirementDocumentIn(jobs: seq<Job>, context: Context): Methodology.Requirement -> RequirementDocument {
    (r: Methodology.Requirement) => RequirementDocumentOf(r, IndexOf(jobs, r.configPath), context)
  }

  /** Every compared value has a passing job. */
  ghost predicate EveryValueBacked(r: Methodology.Requirement, jobs: seq<Job>, context: Context) {
    forall v :: v in ValueSet(jobs, r.configPath) ==>
      exists j :: j in jobs && ValueOf(j, r.configPath) == Some(v) && Passes(j, context)
  }

  lemma AdjudicatedIff(value: string, jobs: seq<Job>, context: Context)
    ensures ValueDocumentOf(value, jobs, context).satisfied <==> exists j :: j in jobs && Passes(j, context)
    ensures ValueDocumentOf(value, jobs, context).satisfied || ValueDocumentOf(value, jobs, context).reasons != []
  {
    var ordered := Sort(jobs, ById());
    var outcomes := Map(ordered, OutcomeIn(context));
    SameElements(ordered, jobs);
    if i :| 0 <= i < |outcomes| && outcomes[i].passing {
      OutcomePasses(ordered[i], context);
      assert ordered[i] in ordered;
    }
    if j :| j in jobs && Passes(j, context) {
      assert j in ordered;
      var i :| 0 <= i < |ordered| && ordered[i] == j;
      OutcomePasses(j, context);
      assert outcomes[i].passing;
    }
  }

  lemma ValueBackedIff(r: Methodology.Requirement, jobs: seq<Job>, index: ValueIndex, context: Context, v: string)
    requires Indexes(index, jobs, r.configPath) && v in index.names
    ensures ValueDocumentIn(index.byValue, context)(v).satisfied <==>
      exists j :: j in jobs && ValueOf(j, r.configPath) == Some(v) && Passes(j, context)
  {
    assert v in index.byValue.Keys;
    var backers := JobsWith(jobs, r.configPath, v);
    AdjudicatedIff(v, backers, context);
    assert forall j :: j in backers <==> j in jobs && HasValue(r.configPath, v)(j);
  }

  lemma AllSatisfiedIff(names: seq<string>, document: string -> ValueDocument)
    ensures var values := Map(Sort(names, TextOrder()), document);
      && (values == [] <==> names == [])
      && ((forall i :: 0 <= i < |values| ==> values[i].satisfied) <==> forall v :: v in names ==> document(v).satisfied)
  {
    var sorted := Sort(names, TextOrder());
    var values := Map(sorted, document);
    SameElements(sorted, names);
    forall i | 0 <= i < |sorted| ensures sorted[i] in names { assert sorted[i] in sorted; }
    forall v | v in names ensures exists i :: 0 <= i < |sorted| && sorted[i] == v { assert v in sorted; }
    if forall i :: 0 <= i < |values| ==> values[i].satisfied {
      forall v | v in names ensures document(v).satisfied {
        var i :| 0 <= i < |sorted| && sorted[i] == v;
        assert values[i].satisfied;
      }
    }
  }

  lemma BackedIff(r: Methodology.Requirement, jobs: seq<Job>, index: ValueIndex, context: Context)
    requires Indexes(index, jobs, r.configPath)
    ensures (forall v :: v in index.names ==> ValueDocumentIn(index.byValue, context)(v).satisfied) <==>
      EveryValueBacked(r, jobs, context)
  {
    NamesAreValues(jobs, r.configPath);
    forall v | v in index.names
      ensures ValueDocumentIn(index.byValue, context)(v).satisfied <==>
        exists j :: j in jobs && ValueOf(j, r.configPath) == Some(v) && Passes(j, context)
    {
      ValueBackedIff(r, jobs, index, context, v);
    }
  }

  method BuildRequirementDocument(r: Methodology.Requirement, jobs: seq<Job>, context: Context)
    returns (document: RequirementDocument)
    ensures document == RequirementDocumentIn(jobs, context)(r)
  {
    var index := BuildValueIndex(r.configPath, jobs);
    var values := BuildValueDocuments(Sort(index.names, TextOrder()), index.byValue, context);
    document := Decide(r, ComparabilityReasons(r, index, context), values);
  }

  method BuildValueDocuments(names: seq<string>, byValue: map<string, seq<Job>>, context: Context)
    returns (values: seq<ValueDocument>)
    ensures values == Map(names, ValueDocumentIn(byValue, context))
  {
    ghost var documentFor := ValueDocumentIn(byValue, context);
    values := [];
    for i := 0 to |names|
      invariant |values| == i && forall k :: 0 <= k < i ==> values[k] == documentFor(names[k])
    {
      var outcomes := Map(Sort(ListedFor(byValue, names[i]), ById()), OutcomeIn(context));
      var value := BuildValueDocument(names[i], outcomes);
      values := values + [value];
    }
    MapIs(names, values, documentFor);
  }

  /**
   A requirement is reported satisfied exactly when enough values are compared, one protocol, one
   seed set and one attested key are shared, and every value is backed by a passing job.
   */
  lemma RequirementSatisfiedIff(r: Methodology.Requirement, jobs: seq<Job>, context: Context)
    ensures RequirementDocumentIn(jobs, context)(r).satisfied <==>
      && CountFits(r, jobs) && SameProtocol(r, jobs, context) && SameSeeds(r, jobs) && OneKey(r, jobs, KeyOf(context))
      && EveryValueBacked(r, jobs, context)
  {
    var index := IndexOf(jobs, r.configPath);
    ComparableIff(r, jobs, context);
    AllSatisfiedIff(index.names, ValueDocumentIn(index.byValue, context));
    BackedIff(r, jobs, index, context);
    CountIndexedIff(r, jobs, index);
    NamesAreValues(jobs, r.configPath);
  }

  // ---------------------------------------------------------------------------
  // The report
  // ---------------------------------------------------------------------------

  function FromValue(id: string, value: string): ValueReason -> ReportReason {
    (why: ValueReason) => OfValue(id, value, why)
  }

  function FromRequirement(id: string): RequirementReason -> ReportReason {
    (reason: RequirementReason) => OfRequirement(id, reason)
  }

  function ValuesReasons(id: string, values: seq<ValueDocument>): seq<ReportReason> {
    if values == [] then []
    else
      var v := values[|values| - 1];
      ValuesReasons(id, values[..|values| - 1]) + if v.satisfied then [] else Map(v.reasons, FromValue(id, v.value))
  }

  function DocumentReasons(document: RequirementDocument): seq<ReportReason> {
    Map(document.reasons, FromRequirement(document.id)) + ValuesReasons(document.id, document.values)
  }

  function ReportReasons(documents: seq<RequirementDocument>): seq<ReportReason> {
    if documents == [] then []
    else ReportReasons(documents[..|documents| - 1]) + DocumentReasons(documents[|documents| - 1])
  }

  predicate AllSatisfied(documents: seq<RequirementDocument>) {
    forall i :: 0 <= i < |documents| ==> documents[i].satisfied
  }

  method CollectReasons(documents: seq<RequirementDocument>) returns (reasons: seq<ReportReason>)
    ensures reasons == ReportReasons(documents)
  {
    reasons := [];
    for i := 0 to |documents|
      invariant reasons == ReportReasons(documents[..i])
    {
      assert documents[..i + 1][..i] == documents[..i];
      var more := CollectDocumentReasons(documents[i]);
      reasons := reasons + more;
    }
    assert documents[..|documents|] == documents;
  }

  method CollectDocumentReasons(document: RequirementDocument) returns (reasons: seq<ReportReason>)
    ensures reasons == DocumentReasons(document)
  {
    reasons := Map(document.reasons, FromRequirement(document.id));
    ghost var own := reasons;
    for i := 0 to |document.values|
      invariant reasons == own + ValuesReasons(document.id, document.values[..i])
    {
      var v := document.values[i];
      assert document.values[..i + 1][..i] == document.values[..i];
      if v.satisfied {
        continue;
      }
      reasons := reasons + Map(v.reasons, FromValue(document.id, v.value));
    }
    assert document.values[..|document.values|] == document.values;
  }

  /** A document as `_requirement_document` makes it from index and context. */
  ghost predicate Decided(document: RequirementDocument) {
    && (document.satisfied <==>
          && document.values != [] && document.reasons == []
          && forall i :: 0 <= i < |document.values| ==> document.values[i].satisfied)
    && (document.values == [] ==> document.reasons != [])
    && (forall i :: 0 <= i < |document.values| ==> document.values[i].satisfied || document.values[i].reasons != [])
  }

  lemma {:induction false} NoValuesReasons(id: string, values: seq<ValueDocument>)
    requires forall i :: 0 <= i < |values| ==> values[i].satisfied || values[i].reasons != []
    ensures ValuesReasons(id, values) == [] <==> forall i :: 0 <= i < |values| ==> values[i].satisfied
  {
    if values != [] {
      var before, v := values[..|values| - 1], values[|values| - 1];
      NoValuesReasons(id, before);
      assert |Map(v.reasons, FromValue(id, v.value))| == |v.reasons|;
      assert forall i :: 0 <= i < |before| ==> before[i] == values[i];
    }
  }

  lemma NoDocumentReasons(document: RequirementDocument)
    requires Decided(document)
    ensures DocumentReasons(document) == [] <==> document.satisfied
  {
    NoValuesReasons(document.id, document.values);
    assert |Map(document.reasons, FromRequirement(document.id))| == |document.reasons|;
  }

  lemma AllSatisfiedSnoc(before: seq<RequirementDocument>, last: RequirementDocument)
    ensures AllSatisfied(before + [last]) <==> AllSatisfied(before) && last.satisfied
  {
    var all := before + [last];
    if AllSatisfied(all) {
      assert all[|before|] == last;
      forall i | 0 <= i < |before| ensures before[i].satisfied { assert all[i] == before[i]; }
    }
  }

  lemma {:induction false} NoReportReasons(documents: seq<RequirementDocument>)
    requires forall i :: 0 <= i < |documents| ==> Decided(documents[i])
    ensures ReportReasons(documents) == [] <==> AllSatisfied(documents)
  {
    if documents != [] {
      var before, last := documents[..|documents| - 1], documents[|documents| - 1];
      NoReportReasons(before);
      NoDocumentReasons(last);
      assert ReportReasons(documents) == ReportReasons(before) + DocumentReasons(last);
      assert documents == before + [last];
      AllSatisfiedSnoc(before, last);
    }
  }

  lemma DecideDecided(r: Methodology.Requirement, reasons: seq<RequirementReason>, values: seq<ValueDocument>)
    requires values == [] ==> reasons != []
    requires forall i :: 0 <= i < |values| ==> values[i].satisfied || values[i].reasons != []
    ensures Decided(Decide(r, reasons, values))
  {
  }

  lemma ValuesAdjudicated(names: seq<string>, byValue: map<string, seq<Job>>, context: Context)
    ensures var values := Map(names, ValueDocumentIn(byValue, context));
      forall i :: 0 <= i < |values| ==> values[i].satisfied || values[i].reasons != []
  {
    forall i | 0 <= i < |names|
      ensures var d := ValueDocumentIn(byValue, context)(names[i]); d.satisfied || d.reasons != []
    {
      AdjudicatedIff(names[i], ListedFor(byValue, names[i]), context);
    }
  }

  lemma NoValueIsAReason(r: Methodology.Requirement, index: ValueIndex, context: Context)
    requires index.names == []
    ensures ComparabilityReasons(r, index, context) != []
  {
    assert CountReasons(r, 0)[0] == NoOverride;
    ReasonsSplit(r, index, context);
  }

  lemma DocumentDecided(r: Methodology.Requirement, index: ValueIndex, context: Context)
    ensures Decided(RequirementDocumentOf(r, index, context))
  {
    var names := Sort(index.names, TextOrder());
    ValuesAdjudicated(names, index.byValue, context);
    if index.names == [] { NoValueIsAReason(r, index, context); }
    DecideDecided(r, ComparabilityReasons(r, index, context), Map(names, ValueDocumentIn(index.byValue, context)));
  }

  lemma DocumentsDecided(rs: seq<Methodology.Requirement>, wave: seq<Job>, context: Context)
    ensures var documents := Map(rs, RequirementDocumentIn(wave, context));
      forall i :: 0 <= i < |documents| ==> Decided(documents[i])
  {
    forall i | 0 <= i < |rs| ensures Decided(RequirementDocumentIn(wave, context)(rs[i])) {
      DocumentDecided(rs[i], IndexOf(wave, rs[i].configPath), context);
    }
  }

  /** The evidence of a job: its first evaluation artifact, and what the reader makes of it. */
  function EvidenceOf(artifacts: seq<Artifact>, fileName: string -> string, read: Reader): string -> Evidence {
    (jobId: string) =>
      var candidates := EvaluationsFor(artifacts, jobId, fileName);
      if candidates == [] then Evidence(None, None)
      else Evidence(Some(candidates[0]), read(candidates[0].uri, candidates[0].sha))
  }

  function ContextFor(run: Binding, metric: Json, wave: seq<Job>, artifacts: seq<Artifact>,
      fileName: string -> string, read: Reader): Context
  {
    Context(run, if metric.Str? && metric.text != "" then Some(metric.text) else None,
      map id | id in (set j | j in wave :: j.jobId) :: EvidenceOf(artifacts, fileName, read)(id))
  }

  function ByRequirementId(): (Methodology.Requirement, Methodology.Requirement) -> bool {
    (a: Methodology.Requirement, b: Methodology.Requirement) => StrLeq(a.id, b.id)
  }

  function AcrossJobs(rs: seq<Methodology.Requirement>): seq<Methodology.Requirement> {
    Sort(Filter(rs, (r: Methodology.Requirement) => Methodology.Across(r)), ByRequirementId())
  }

  /** The contract as the report uses it; `requirements` is `None` when they do not parse. */
  datatype Contract = Contract(binding: Binding, requirements: Option<seq<Methodology.Requirement>>, metric: Json)

  function ReportOf(contract: Contract, documents: seq<RequirementDocument>): Report {
    Report(contract.binding, documents, AllSatisfied(documents), ReportReasons(documents))
  }

  /** build_comparison_report: no document unless the contract compares across jobs. */
  function ReportFor(run: Binding, contract: Contract, jobs: seq<Job>, artifacts: seq<Artifact>,
      fileName: string -> string, read: Reader): Option<Report>
  {
    if contract.requirements.None? || AcrossJobs(contract.requirements.value) == [] then None
    else
      var wave := LatestWave(jobs);
      var context := ContextFor(run, contract.metric, wave, artifacts, fileName, read);
      Some(ReportOf(contract, Map(AcrossJobs(contract.requirements.value), RequirementDocumentIn(wave, context))))
  }

  method BuildContext(run: Binding, metric: Json, wave: seq<Job>, artifacts: seq<Artifact>,
      fileName: string -> string, read: Reader)
    returns (context: Context)
    ensures context == ContextFor(run, metric, wave, artifacts, fileName, read)
  {
    var byJob := EvaluationArtifactsByJob(artifacts, fileName);
    ghost var evidenceOf := EvidenceOf(artifacts, fileName, read);
    var evidence: map<string, Evidence> := map[];
    for i := 0 to |wave|
      invariant forall id :: id in evidence <==> exists k :: 0 <= k < i && wave[k].jobId == id
      invariant forall id :: id in evidence ==> evidence[id] == evidenceOf(id)
    {
      var id := wave[i].jobId;
      CandidatesListed(byJob, artifacts, fileName, id);
      var found := JobEvidence(id, ListedFor(byJob, id), artifacts, fileName, read, evidenceOf);
      evidence := evidence[id := found];
    }
    context := Context(run, if metric.Str? && metric.text != "" then Some(metric.text) else None, evidence);
    ContextIs(context, run, metric, wave, artifacts, fileName, read);
  }

  lemma ContextIs(context: Context, run: Binding, metric: Json, wave: seq<Job>, artifacts: seq<Artifact>,
      fileName: string -> string, read: Reader)
    requires context.run == run
    requires context.metric == if metric.Str? && metric.text != "" then Some(metric.text) else None
    requires forall id :: id in context.evidence <==> exists k :: 0 <= k < |wave| && wave[k].jobId == id
    requires forall id :: id in context.evidence ==> context.evidence[id] == EvidenceOf(artifacts, fileName, read)(id)
    ensures context == ContextFor(run, metric, wave, artifacts, fileName, read)
  {
    var expected := ContextFor(run, metric, wave, artifacts, fileName, read);
    forall id ensures id in context.evidence <==> id in expected.evidence {
      if id in expected.evidence {
        var j :| j in wave && j.jobId == id;
      }
      if k :| 0 <= k < |wave| && wave[k].jobId == id { assert wave[k] in wave; }
    }
    assert context.evidence == expected.evidence;
  }

  /** _job_evidence. */
  method JobEvidence(id: string, candidates: seq<Artifact>, ghost artifacts: seq<Artifact>,
      ghost fileName: string -> string, read: Reader, ghost evidenceOf: string -> Evidence)
    returns (evidence: Evidence)
    requires evidenceOf == EvidenceOf(artifacts, fileName, read)
    requires candidates == EvaluationsFor(artifacts, id, fileName)
    ensures evidence == evidenceOf(id)
  {
    evidence := if candidates == [] then Evidence(None, None)
                else Evidence(Some(candidates[0]), read(candidates[0].uri, candidates[0].sha));
  }

  lemma CandidatesListed(byJob: map<string, seq<Artifact>>, artifacts: seq<Artifact>, fileName: string -> string,
      id: string)
    requires id in byJob <==> Filter(artifacts, EvaluationOf(id, fileName)) != []
    requires id in byJob ==> byJob[id] == EvaluationsFor(artifacts, id, fileName)
    ensures ListedFor(byJob, id) == EvaluationsFor(artifacts, id, fileName)
  {
  }

  method BuildReport(run: Binding, contract: Contract, jobs: seq<Job>, artifacts: seq<Artifact>,
      fileName: string -> string, read: Reader)
    returns (report: Option<Report>)
    ensures report == ReportFor(run, contract, jobs, artifacts, fileName, read)
  {
    if contract.requirements.None? || AcrossJobs(contract.requirements.value) == [] {
      return None;
    }
    var rs, wave := AcrossJobs(contract.requirements.value), LatestWave(jobs);
    var context := BuildContext(run, contract.metric, wave, artifacts, fileName, read);
    var documents := BuildDocuments(rs, wave, context);
    var reasons := CollectReasons(documents);
    report := Some(Report(contract.binding, documents, AllSatisfied(documents), reasons));
  }

  method BuildDocuments(rs: seq<Methodology.Requirement>, wave: seq<Job>, context: Context)
    returns (documents: seq<RequirementDocument>)
    ensures documents == Map(rs, RequirementDocumentIn(wave, context))
  {
    documents := [];
    for i := 0 to |rs|
      invariant documents == Map(rs[..i], RequirementDocumentIn(wave, context))
    {
      var document := BuildRequirementDocument(rs[i], wave, context);
      MapSnoc(rs, i, RequirementDocumentIn(wave, context));
      documents := documents + [document];
    }
    assert rs[..|rs|] == rs;
  }

  /** In every report `satisfied` holds exactly when there is no reason against it. */
  lemma SatisfiedIffNoReasons(run: Binding, contract: Contract, jobs: seq<Job>, artifacts: seq<Artifact>,
      fileName: string -> string, read: Reader)
    ensures var report := ReportFor(run, contract, jobs, artifacts, fileName, read);
      report.Some? ==> (report.value.satisfied <==> report.value.reasons == [])
  {
    if contract.requirements.Some? {
      var wave := LatestWave(jobs);
      var context := ContextFor(run, contract.metric, wave, artifacts, fileName, read);
      var rs := AcrossJobs(contract.requirements.value);
      DocumentsDecided(rs, wave, context);
      NoReportReasons(Map(rs, RequirementDocumentIn(wave, context)));
    }
  }

  /** What a satisfied report claims of the newest wave, for one across_jobs requirement. */
  ghost predicate SoundComparison(r: Methodology.Requirement, wave: seq<Job>, context: Context) {
    && CountFits(r, wave) && SameProtocol(r, wave, context) && SameSeeds(r, wave)
    && OneKey(r, wave, KeyOf(context)) && EveryValueBacked(r, wave, context)
  }

  /** A report is satisfied exactly when every across_jobs requirement is soundly compared. */
  lemma SatisfiedIffSound(run: Binding, contract: Contract, jobs: seq<Job>, artifacts: seq<Artifact>,
      fileName: string -> string, read: Reader)
    ensures var report := ReportFor(run, contract, jobs, artifacts, fileName, read);
      var wave := LatestWave(jobs);
      var context := ContextFor(run, contract.metric, wave, artifacts, fileName, read);
      report.Some? ==> (report.value.satisfied <==>
        forall r :: r in contract.requirements.value && Methodology.Across(r) ==> SoundComparison(r, wave, context))
  {
    if contract.requirements.Some? {
      var wave := LatestWave(jobs);
      var context := ContextFor(run, contract.metric, wave, artifacts, fileName, read);
      var rs := AcrossJobs(contract.requirements.value);
      AcrossJobsAre(contract.requirements.value);
      DocumentsSoundIff(rs, wave, context);
    }
  }

  lemma AcrossJobsAre(rs: seq<Methodology.Requirement>)
    ensures forall r :: r in AcrossJobs(rs) <==> r in rs && Methodology.Across(r)
  {
    SameElements(AcrossJobs(rs), Filter(rs, (r: Methodology.Requirement) => Methodology.Across(r)));
  }

  lemma DocumentsSoundIff(rs: seq<Methodology.Requirement>, wave: seq<Job>, context: Context)
    ensures AllSatisfied(Map(rs, RequirementDocumentIn(wave, context))) <==>
      forall r :: r in rs ==> SoundComparison(r, wave, context)
  {
    var documents := Map(rs, RequirementDocumentIn(wave, context));
    forall i | 0 <= i < |rs| ensures documents[i].satisfied <==> SoundComparison(rs[i], wave, context) {
      RequirementSatisfiedIff(rs[i], wave, context);
    }
    if AllSatisfied(documents) {
      forall r | r in rs ensures SoundComparison(r, wave, context) {
        var i :| 0 <= i < |rs| && rs[i] == r;
        assert documents[i].satisfied;
      }
    }
  }

  lemma SameEvidence(artifacts: seq<Artifact>, others: seq<Artifact>, fileName: string -> string, read: Reader,
      id: string)
    requires multiset(artifacts) == multiset(others)
    ensures EvidenceOf(artifacts, fileName, read)(id) == EvidenceOf(others, fileName, read)(id)
  {
    EvaluationsPermuted(artifacts, others, id, fileName);
  }

  lemma SameContext(run: Binding, metric: Json, wave: seq<Job>, artifacts: seq<Artifact>, others: seq<Artifact>,
      fileName: string -> string, read: Reader)
    requires multiset(artifacts) == multiset(others)
    ensures ContextFor(run, metric, wave, artifacts, fileName, read) ==
      ContextFor(run, metric, wave, others, fileName, read)
  {
    forall id: string ensures EvidenceOf(artifacts, fileName, read)(id) == EvidenceOf(others, fileName, read)(id) {
      SameEvidence(artifacts, others, fileName, read, id);
    }
  }

  /** The report sees only the newest wave and the collection of artifacts. */
  lemma ReportStable(run: Binding, contract: Contract, jobs: seq<Job>, artifacts: seq<Artifact>,
      jobs': seq<Job>, artifacts': seq<Artifact>, fileName: string -> string, read: Reader)
    requires LatestWave(jobs) == LatestWave(jobs') && multiset(artifacts) == multiset(artifacts')
    ensures ReportFor(run, contract, jobs, artifacts, fileName, read) ==
      ReportFor(run, contract, jobs', artifacts', fileName, read)
  {
    SameContext(run, contract.metric, LatestWave(jobs), artifacts, artifacts', fileName, read);
  }

  /**
   Report and fingerprint are the same for every permutation of the jobs and of the artifacts, with
   or without the jobs of superseded waves.
   */
  lemma ReportDeterministic(run: Binding, contract: Contract, jobs: seq<Job>, older: seq<Job>, artifacts: seq<Artifact>,
      jobs': seq<Job>, artifacts': seq<Artifact>, fileName: string -> string, read: Reader)
    requires jobs != [] && IdsIdentify(jobs + older) && Superseded(older, jobs)
    requires multiset(jobs') == multiset(jobs + older) && multiset(artifacts') == multiset(artifacts)
    ensures ReportFor(run, contract, jobs, artifacts, fileName, read) ==
      ReportFor(run, contract, jobs', artifacts', fileName, read)
    ensures FingerprintLines(jobs, artifacts, fileName) == FingerprintLines(jobs', artifacts', fileName)
  {
    OlderWaveIgnored(jobs, older);
    WavePermuted(jobs + older, jobs');
    ReportStable(run, contract, jobs, artifacts, jobs', artifacts', fileName, read);
    FingerprintStable(jobs, artifacts, jobs', artifacts', fileName);
  }
}
