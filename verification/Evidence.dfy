/**
 Compact evidence snapshots (evidence.py, _visible_artifacts, _drop_candidates, _drop_content_entry,
 _truncation_note and build_evidence_snapshot): entries are dropped, least protected first, until
 the serialized snapshot fits a byte budget.

 An artifact is named by its path; its reference in the snapshot is `artifact://` and the path, so
 two artifacts have the same reference exactly when they have the same path. What the file system
 holds (`read`), the last component of a path (`fileName`) and the serialized size are parameters.
 */
module Evidence {
  import opened Wrappers
  import opened Lists
  import opened Order
  import Text

  // ---------------------------------------------------------------------------
  // File names and tiers
  // ---------------------------------------------------------------------------

  datatype Phase = Analysis | Verification | Report

  function PhaseFilenames(phase: Phase): set<string> {
    match phase
    case Analysis =>
      {"runner.log", "status.json", "evaluation.json", "metrics.json", "metrics.csv", "fairness.csv", "comparison.json"}
    case Verification => {"status.json", "evaluation.json", "metrics.json", "report.md", "comparison.json"}
    case Report => {"evaluation.json", "metrics.json", "comparison.json"}
  }

  const VERBATIM_FILENAMES := {"evaluation.json", "metrics.json", "comparison.json"}
  const PRIORITY_2_FILENAMES := {"runner.log", "metrics.csv", "fairness.csv"}
  const PRIORITY_1_FILENAMES := {"status.json", "report.md"}

  predicate StartsWith(s: string, t: string) { t <= s }

  predicate IsComparisonFilename(name: string) {
    name == "comparison.json" || (StartsWith(name, "comparison-") && Text.EndsWith(name, ".json"))
  }

  predicate InPriority2(name: string) { name in PRIORITY_2_FILENAMES }

  predicate InPriority1(name: string) { name in PRIORITY_1_FILENAMES }

  predicate InVerbatim(name: string) { name in VERBATIM_FILENAMES || IsComparisonFilename(name) }

  /** Content with such a file name has a turn to be dropped. */
  predicate InSomeTier(name: string) { InPriority2(name) || InPriority1(name) || InVerbatim(name) }

  /** Every file name a phase can show has a tier: nothing is undroppable. */
  lemma PhaseNamesHaveTiers(phase: Phase, name: string)
    requires name in PhaseFilenames(phase) || IsComparisonFilename(name)
    ensures InSomeTier(name)
  {
  }

  // ---------------------------------------------------------------------------
  // Visible artifacts
  // ---------------------------------------------------------------------------

  datatype ArtifactRecord = ArtifactRecord(
    artifactId: string, jobId: Option<string>, kind: string, path: string, sha256: string, createdAt: string)

  /** Run-level comparisons have no owning job and the orchestrator's own type. */
  predicate IsAuthoritativeComparison(a: ArtifactRecord, fileName: string -> string) {
    a.jobId == None && a.kind == "comparison" && IsComparisonFilename(fileName(a.path))
  }

  /** `(a.created_at, a.artifact_id) <= (b.created_at, b.artifact_id)`. */
  predicate NotNewer(a: ArtifactRecord, b: ArtifactRecord) {
    || (a.createdAt != b.createdAt && StrLeq(a.createdAt, b.createdAt))
    || (a.createdAt == b.createdAt && StrLeq(a.artifactId, b.artifactId))
  }

  lemma NotNewerOrder(a: ArtifactRecord, b: ArtifactRecord, c: ArtifactRecord)
    ensures NotNewer(a, a)
    ensures NotNewer(a, b) || NotNewer(b, a)
    ensures NotNewer(a, b) && NotNewer(b, c) ==> NotNewer(a, c)
  {
    StrLeqTotal(a.createdAt, b.createdAt);
    StrLeqTotal(a.artifactId, b.artifactId);
    StrLeqTotal(a.artifactId, a.artifactId);
    if NotNewer(a, b) && NotNewer(b, c) {
      if a.createdAt != b.createdAt && b.createdAt != c.createdAt {
        StrLeqTransitive(a.createdAt, b.createdAt, c.createdAt);
        if a.createdAt == c.createdAt { StrLeqAntisymmetric(a.createdAt, b.createdAt); }
      } else if a.createdAt == b.createdAt == c.createdAt {
        StrLeqTransitive(a.artifactId, b.artifactId, c.artifactId);
      }
    }
  }

  /** `n` is an authoritative comparison that no other one is newer than. */
  ghost predicate IsNewestComparison(n: ArtifactRecord, artifacts: seq<ArtifactRecord>, fileName: string -> string) {
    && n in artifacts && IsAuthoritativeComparison(n, fileName)
    && forall a :: a in artifacts && IsAuthoritativeComparison(a, fileName) ==> NotNewer(a, n)
  }

  /** An artifact a phase shows, given the id of the newest comparison. */
  predicate Shown(a: ArtifactRecord, newestId: Option<string>, allowed: set<string>, fileName: string -> string) {
    if IsComparisonFilename(fileName(a.path)) then "comparison.json" in allowed && newestId == Some(a.artifactId)
    else fileName(a.path) in allowed
  }

  function ShownTo(newest: Option<ArtifactRecord>, allowed: set<string>, fileName: string -> string):
    ArtifactRecord -> bool
  {
    (a: ArtifactRecord) => Shown(a, if newest.Some? then Some(newest.value.artifactId) else None, allowed, fileName)
  }

  /** `newest` is the newest authoritative comparison, if there is any. */
  ghost predicate IsNewest(newest: Option<ArtifactRecord>, artifacts: seq<ArtifactRecord>, fileName: string -> string) {
    match newest
    case Some(n) => IsNewestComparison(n, artifacts, fileName)
    case None => forall a :: a in artifacts ==> !IsAuthoritativeComparison(a, fileName)
  }

  /** _visible_artifacts: the allowed file names, and of all comparisons only the newest authoritative one. */
  method VisibleArtifacts(artifacts: seq<ArtifactRecord>, allowed: set<string>, fileName: string -> string)
    returns (visible: seq<ArtifactRecord>, newest: Option<ArtifactRecord>)
    ensures IsNewest(newest, artifacts, fileName) && visible == Filter(artifacts, ShownTo(newest, allowed, fileName))
  {
    newest := None;
    for i := 0 to |artifacts|
      invariant newest.Some? ==> IsNewestComparison(newest.value, artifacts[..i], fileName)
      invariant newest.None? ==> forall a :: a in artifacts[..i] ==> !IsAuthoritativeComparison(a, fileName)
    {
      var a := artifacts[i];
      assert artifacts[..i + 1] == artifacts[..i] + [a];
      if IsAuthoritativeComparison(a, fileName) {
        forall b | b in artifacts[..i] && newest.Some? && NotNewer(b, newest.value)
          ensures NotNewer(newest.value, a) ==> NotNewer(b, a)
        {
          NotNewerOrder(b, newest.value, a);
        }
        NotNewerOrder(a, if newest.Some? then newest.value else a, a);
        if newest.None? || !NotNewer(a, newest.value) {
          newest := Some(a);
        }
      }
    }
    assert artifacts[..|artifacts|] == artifacts;
    visible := Filter(artifacts, ShownTo(newest, allowed, fileName));
  }

  // ---------------------------------------------------------------------------
  // The snapshot
  // ---------------------------------------------------------------------------

  datatype JobEntry = JobEntry(jobId: string, fields: string)

  datatype ArtifactEntry = ArtifactEntry(path: string, fields: string)

  /** One excerpt: with its content, or a duplicate of another entry's content, or with neither. */
  datatype Body = Verbatim(content: string) | DuplicateOf(path: string) | Unavailable(reason: string)

  datatype ContentEntry = ContentEntry(path: string, fields: string, body: Body)

  /** A reference in the truncation note: `artifact://<path>` or `job://<job id>`. */
  datatype Reference = ArtifactReference(path: string) | JobReference(jobId: string)

  datatype Note = Note(omitted: seq<Reference>, count: nat, more: Option<nat>)

  datatype Snapshot = Snapshot(
    jobs: seq<JobEntry>, artifacts: seq<ArtifactEntry>, contents: seq<ContentEntry>, note: Option<Note>)

  const MAX_OMITTED_REFERENCES := 25

  function TruncationNote(dropped: seq<Reference>): Note {
    if |dropped| > MAX_OMITTED_REFERENCES
    then Note(dropped[..MAX_OMITTED_REFERENCES], |dropped|, Some(|dropped| - MAX_OMITTED_REFERENCES))
    else Note(dropped, |dropped|, None)
  }

  /** The note lists a prefix of what was dropped and says how many more there are. */
  ghost predicate Accounts(note: Note, dropped: seq<Reference>) {
    && note.omitted <= dropped && |note.omitted| <= MAX_OMITTED_REFERENCES
    && note.count == |dropped|
    && note.more == (if |note.omitted| < |dropped| then Some(|dropped| - |note.omitted|) else None)
  }

  /** The note that lists the first `n` of what was dropped. */
  function NoteListing(dropped: seq<Reference>, n: nat): Note
    requires n <= |dropped|
  {
    Note(dropped[..n], |dropped|, if n < |dropped| then Some(|dropped| - n) else None)
  }

  lemma TruncationLists(dropped: seq<Reference>)
    ensures TruncationNote(dropped) == NoteListing(dropped, if |dropped| > 25 then 25 else |dropped|)
  {
    assert dropped[..|dropped|] == dropped;
  }

  ghost predicate DistinctPaths(contents: seq<ContentEntry>) {
    forall i, j :: 0 <= i < j < |contents| ==> contents[i].path != contents[j].path
  }

  /** Every duplicate names a present entry that carries its content. */
  ghost predicate NoDangling(contents: seq<ContentEntry>) {
    forall d :: d in contents && d.body.DuplicateOf? ==>
      exists r :: r in contents && r.path == d.body.path && r.body.Verbatim?
  }

  type Dependents = map<string, seq<string>>

  /** The table lists, for each content-bearing entry, the duplicates that refer to it. */
  ghost predicate ListsDependents(table: Dependents, contents: seq<ContentEntry>) {
    && (forall d :: d in contents && d.body.DuplicateOf? ==>
          d.body.path in table && d.path in table[d.body.path])
    && (forall p, q, c :: p in table && q in table[p] && c in contents && c.path == q ==> c.body == DuplicateOf(p))
  }

  /** What reading an artifact yields: nothing, an excerpt without content, or one with it. */
  datatype Excerpt =
    | NoExcerpt
    | NoContent(fields: string, reason: string)
    | WithContent(fields: string, content: string)

  type DigestKey = (string, string)

  /** What the loop of build_evidence_snapshot has gathered. */
  datatype Collected = Collected(
    contents: seq<ContentEntry>, table: Dependents, firstByDigest: map<DigestKey, string>)

  /** All entries, keys and dependents come from the artifacts read so far. */
  ghost predicate FromPaths(acc: Collected, paths: seq<string>) {
    && (forall c :: c in acc.contents ==> c.path in paths)
    && (forall p, q :: p in acc.table && q in acc.table[p] ==> q in paths)
  }

  ghost predicate CarriesContent(contents: seq<ContentEntry>, path: string) {
    exists r :: r in contents && r.path == path && r.body.Verbatim?
  }

  ghost predicate KeysCarryContent(acc: Collected) {
    forall k :: k in acc.firstByDigest ==> CarriesContent(acc.contents, acc.firstByDigest[k])
  }

  ghost predicate Consistent(acc: Collected) {
    DistinctPaths(acc.contents) && NoDangling(acc.contents) && ListsDependents(acc.table, acc.contents)
  }

  function Paths(visible: seq<ArtifactRecord>): (r: seq<string>)
    ensures |r| == |visible| && forall i :: 0 <= i < |r| ==> r[i] == visible[i].path
  {
    seq(|visible|, i requires 0 <= i < |visible| => visible[i].path)
  }

  function KeyOf(a: ArtifactRecord): DigestKey { (a.sha256, a.kind) }

  /** `j` is the first of the readable artifacts whose excerpt has content under this key. */
  ghost predicate FirstWithKey(rs: seq<ArtifactRecord>, read: ArtifactRecord -> Excerpt, j: int, key: DigestKey) {
    && 0 <= j < |rs| && read(rs[j]).WithContent? && KeyOf(rs[j]) == key
    && forall k :: 0 <= k < j && read(rs[k]).WithContent? ==> KeyOf(rs[k]) != key
  }

  /** The entry of the `i`-th readable artifact: content goes with the first of its key, later ones refer to it. */
  ghost predicate EntryFor(c: ContentEntry, rs: seq<ArtifactRecord>, read: ArtifactRecord -> Excerpt, i: int)
    requires 0 <= i < |rs|
  {
    match read(rs[i])
    case NoExcerpt => false
    case NoContent(fields, reason) => c == ContentEntry(rs[i].path, fields, Unavailable(reason))
    case WithContent(fields, content) =>
      exists j :: FirstWithKey(rs, read, j, KeyOf(rs[i])) &&
        c == ContentEntry(rs[i].path, fields, if j == i then Verbatim(content) else DuplicateOf(rs[j].path))
  }

  ghost predicate Excerpted(contents: seq<ContentEntry>, rs: seq<ArtifactRecord>, read: ArtifactRecord -> Excerpt) {
    |contents| == |rs| && forall i :: 0 <= i < |rs| ==> EntryFor(contents[i], rs, read, i)
  }

  /** The table of first paths is right for the readable artifacts so far. */
  ghost predicate FirstPaths(first: map<DigestKey, string>, rs: seq<ArtifactRecord>, read: ArtifactRecord -> Excerpt) {
    && (forall key :: key in first ==> exists j :: FirstWithKey(rs, read, j, key) && rs[j].path == first[key])
    && (forall k :: 0 <= k < |rs| && read(rs[k]).WithContent? ==> KeyOf(rs[k]) in first)
  }

  function HasExcerpt(read: ArtifactRecord -> Excerpt): ArtifactRecord -> bool {
    (a: ArtifactRecord) => !read(a).NoExcerpt?
  }

  lemma FirstStays(rs: seq<ArtifactRecord>, r: ArtifactRecord, read: ArtifactRecord -> Excerpt, j: int, key: DigestKey)
    requires FirstWithKey(rs, read, j, key)
    ensures FirstWithKey(rs + [r], read, j, key)
  {
  }

  lemma EntriesStay(contents: seq<ContentEntry>, rs: seq<ArtifactRecord>, r: ArtifactRecord,
      read: ArtifactRecord -> Excerpt)
    requires Excerpted(contents, rs, read)
    ensures forall i :: 0 <= i < |rs| ==> EntryFor(contents[i], rs + [r], read, i)
  {
    forall i | 0 <= i < |rs| ensures EntryFor(contents[i], rs + [r], read, i) {
      assert EntryFor(contents[i], rs, read, i);
      if read(rs[i]).WithContent? {
        var j :| FirstWithKey(rs, read, j, KeyOf(rs[i])) && contents[i] == ContentEntry(rs[i].path, read(rs[i]).fields,
          if j == i then Verbatim(read(rs[i]).content) else DuplicateOf(rs[j].path));
        FirstStays(rs, r, read, j, KeyOf(rs[i]));
      }
    }
  }

  lemma FirstPathsStay(first: map<DigestKey, string>, rs: seq<ArtifactRecord>, r: ArtifactRecord,
      read: ArtifactRecord -> Excerpt)
    requires FirstPaths(first, rs, read)
    ensures forall key :: key in first ==>
      exists j :: FirstWithKey(rs + [r], read, j, key) && (rs + [r])[j].path == first[key]
  {
    forall key | key in first
      ensures exists j :: FirstWithKey(rs + [r], read, j, key) && (rs + [r])[j].path == first[key]
    {
      var j :| FirstWithKey(rs, read, j, key) && rs[j].path == first[key];
      FirstStays(rs, r, read, j, key);
    }
  }

  lemma NewKeyExcerpted(contents: seq<ContentEntry>, first: map<DigestKey, string>, rs: seq<ArtifactRecord>,
      r: ArtifactRecord, read: ArtifactRecord -> Excerpt)
    requires Excerpted(contents, rs, read) && FirstPaths(first, rs, read)
    requires read(r).WithContent? && KeyOf(r) !in first
    ensures Excerpted(contents + [ContentEntry(r.path, read(r).fields, Verbatim(read(r).content))], rs + [r], read)
    ensures FirstPaths(first[KeyOf(r) := r.path], rs + [r], read)
  {
    EntriesStay(contents, rs, r, read);
    FirstPathsStay(first, rs, r, read);
    assert FirstWithKey(rs + [r], read, |rs|, KeyOf(r));
  }

  lemma OldKeyExcerpted(contents: seq<ContentEntry>, first: map<DigestKey, string>, rs: seq<ArtifactRecord>,
      r: ArtifactRecord, read: ArtifactRecord -> Excerpt)
    requires Excerpted(contents, rs, read) && FirstPaths(first, rs, read)
    requires read(r).WithContent? && KeyOf(r) in first
    ensures Excerpted(contents + [ContentEntry(r.path, read(r).fields, DuplicateOf(first[KeyOf(r)]))], rs + [r], read)
    ensures FirstPaths(first, rs + [r], read)
  {
    EntriesStay(contents, rs, r, read);
    FirstPathsStay(first, rs, r, read);
    var j :| FirstWithKey(rs + [r], read, j, KeyOf(r)) && (rs + [r])[j].path == first[KeyOf(r)];
    assert j != |rs| by {
      var k :| FirstWithKey(rs, read, k, KeyOf(r));
      assert (rs + [r])[k] == rs[k];
    }
  }

  lemma PlainExcerpted(contents: seq<ContentEntry>, first: map<DigestKey, string>, rs: seq<ArtifactRecord>,
      r: ArtifactRecord, read: ArtifactRecord -> Excerpt)
    requires Excerpted(contents, rs, read) && FirstPaths(first, rs, read) && read(r).NoContent?
    ensures Excerpted(contents + [ContentEntry(r.path, read(r).fields, Unavailable(read(r).reason))], rs + [r], read)
    ensures FirstPaths(first, rs + [r], read)
  {
    EntriesStay(contents, rs, r, read);
    FirstPathsStay(first, rs, r, read);
  }

  lemma ReadableNext(visible: seq<ArtifactRecord>, i: nat, read: ArtifactRecord -> Excerpt)
    requires i < |visible|
    ensures Filter(visible[..i + 1], HasExcerpt(read)) ==
      Filter(visible[..i], HasExcerpt(read)) + if read(visible[i]).NoExcerpt? then [] else [visible[i]]
  {
    assert visible[..i + 1] == visible[..i] + [visible[i]];
    FilterSnoc(visible[..i], visible[i], HasExcerpt(read));
  }

  function RefersTo(path: string): ContentEntry -> bool { (c: ContentEntry) => c.body == DuplicateOf(path) }

  function PathOf(): ContentEntry -> string { (c: ContentEntry) => c.path }

  /** The table lists the duplicates of each entry, in order. */
  ghost predicate TableFor(table: Dependents, contents: seq<ContentEntry>) {
    forall p :: DependentsOf(table, p) == Map(Filter(contents, RefersTo(p)), PathOf())
  }

  function WithDuplicate(table: Dependents, c: ContentEntry): Dependents {
    if c.body.DuplicateOf? then table[c.body.path := DependentsOf(table, c.body.path) + [c.path]] else table
  }

  lemma TableNext(table: Dependents, contents: seq<ContentEntry>, c: ContentEntry)
    requires TableFor(table, contents)
    ensures TableFor(WithDuplicate(table, c), contents + [c])
  {
    var next := WithDuplicate(table, c);
    forall p ensures DependentsOf(next, p) == Map(Filter(contents + [c], RefersTo(p)), PathOf()) {
      FilterSnoc(contents, c, RefersTo(p));
      MapConcat(Filter(contents, RefersTo(p)), [c], PathOf());
      assert DependentsOf(table, p) == Map(Filter(contents, RefersTo(p)), PathOf());
    }
  }

  /** What is collected once the first `n` artifacts have been read. */
  ghost predicate Collecting(acc: Collected, visible: seq<ArtifactRecord>, paths: seq<string>, n: nat,
      read: ArtifactRecord -> Excerpt)
  {
    && n <= |visible| == |paths|
    && TableFor(acc.table, acc.contents)
    && Read(acc, Filter(visible[..n], HasExcerpt(read)), read)
    && WellFounded(acc, paths[..n])
    && (NoDuplicates(paths) ==> Consistent(acc))
  }

  /** The body of the loop below. */
  method CollectContent(a: ArtifactRecord, read: ArtifactRecord -> Excerpt, contents: seq<ContentEntry>,
      table: Dependents, firstByDigest: map<DigestKey, string>)
    returns (contents': seq<ContentEntry>, table': Dependents, firstByDigest': map<DigestKey, string>)
    ensures Collected(contents', table', firstByDigest') == Added(Collected(contents, table, firstByDigest), a, read)
  {
    contents', table', firstByDigest' := contents, table, firstByDigest;
    match read(a) {
      case NoExcerpt =>
      case NoContent(fields, reason) =>
        contents' := contents + [ContentEntry(a.path, fields, Unavailable(reason))];
      case WithContent(fields, content) =>
        var key := KeyOf(a);
        if key !in firstByDigest {
          firstByDigest' := firstByDigest[key := a.path];
          contents' := contents + [ContentEntry(a.path, fields, Verbatim(content))];
        } else {
          var first := firstByDigest[key];
          contents' := contents + [ContentEntry(a.path, fields, DuplicateOf(first))];
          table' := table[first := DependentsOf(table, first) + [a.path]];
        }
    }
  }

  /** The content entries of the visible artifacts, equal content kept once, and the dependents table. */
  method CollectContents(visible: seq<ArtifactRecord>, read: ArtifactRecord -> Excerpt)
    returns (contents: seq<ContentEntry>, table: Dependents)
    ensures Excerpted(contents, Filter(visible, HasExcerpt(read)), read) && TableFor(table, contents)
    ensures forall c :: c in contents ==> c.path in Paths(visible)
    ensures NoDuplicates(Paths(visible)) ==>
      DistinctPaths(contents) && NoDangling(contents) && ListsDependents(table, contents)
  {
    contents, table := [], map[];
    var firstByDigest: map<DigestKey, string> := map[];
    ghost var paths := Paths(visible);
    for i := 0 to |visible|
      invariant Collecting(Collected(contents, table, firstByDigest), visible, paths, i, read)
    {
      CollectingNext(Collected(contents, table, firstByDigest), visible, paths, i, read);
      contents, table, firstByDigest := CollectContent(visible[i], read, contents, table, firstByDigest);
    }
    assert paths[..|visible|] == paths && visible[..|visible|] == visible;
  }

  lemma CollectingNext(acc: Collected, visible: seq<ArtifactRecord>, paths: seq<string>, i: nat,
      read: ArtifactRecord -> Excerpt)
    requires i < |visible| == |paths| && visible[i].path == paths[i] && Collecting(acc, visible, paths, i, read)
    ensures Collecting(Added(acc, visible[i], read), visible, paths, i + 1, read)
  {
    ReadableNext(visible, i, read);
    NextPath(paths, i);
    AddedKeeps(acc, visible[i], Filter(visible[..i], HasExcerpt(read)), read, paths[..i]);
    AddedTable(acc, visible[i], read);
  }

  lemma NextPath(paths: seq<string>, i: nat)
    requires i < |paths|
    ensures paths[..i + 1] == paths[..i] + [paths[i]]
    ensures NoDuplicates(paths) ==> paths[i] !in paths[..i]
  {
  }

  /** One artifact more. */
  function Added(acc: Collected, a: ArtifactRecord, read: ArtifactRecord -> Excerpt): Collected {
    match read(a)
    case NoExcerpt => acc
    case NoContent(fields, reason) =>
      acc.(contents := acc.contents + [ContentEntry(a.path, fields, Unavailable(reason))])
    case WithContent(fields, content) =>
      if KeyOf(a) !in acc.firstByDigest then
        acc.(contents := acc.contents + [ContentEntry(a.path, fields, Verbatim(content))],
             firstByDigest := acc.firstByDigest[KeyOf(a) := a.path])
      else
        var first := acc.firstByDigest[KeyOf(a)];
        acc.(contents := acc.contents + [ContentEntry(a.path, fields, DuplicateOf(first))],
             table := acc.table[first := DependentsOf(acc.table, first) + [a.path]])
  }

  ghost predicate Read(acc: Collected, rs: seq<ArtifactRecord>, read: ArtifactRecord -> Excerpt) {
    Excerpted(acc.contents, rs, read) && FirstPaths(acc.firstByDigest, rs, read)
  }

  /** Everything collected comes from these paths, and every key from an entry with content. */
  ghost predicate WellFounded(acc: Collected, paths: seq<string>) { FromPaths(acc, paths) && KeysCarryContent(acc) }

  lemma AddedKeeps(acc: Collected, a: ArtifactRecord, rs: seq<ArtifactRecord>, read: ArtifactRecord -> Excerpt,
      paths: seq<string>)
    requires Read(acc, rs, read) && WellFounded(acc, paths)
    ensures var next := Added(acc, a, read);
      && Read(next, rs + if read(a).NoExcerpt? then [] else [a], read)
      && WellFounded(next, paths + [a.path])
      && (a.path !in paths && Consistent(acc) ==> Consistent(next))
  {
    AddedRead(acc, a, rs, read);
    AddedKnown(acc, a, read, paths);
  }

  lemma AddedTable(acc: Collected, a: ArtifactRecord, read: ArtifactRecord -> Excerpt)
    requires TableFor(acc.table, acc.contents)
    ensures var next := Added(acc, a, read); TableFor(next.table, next.contents)
  {
    var next := Added(acc, a, read);
    if next != acc {
      var c := next.contents[|acc.contents|];
      TableNext(acc.table, acc.contents, c);
    }
  }

  lemma AddedRead(acc: Collected, a: ArtifactRecord, rs: seq<ArtifactRecord>, read: ArtifactRecord -> Excerpt)
    requires Read(acc, rs, read)
    ensures Read(Added(acc, a, read), rs + if read(a).NoExcerpt? then [] else [a], read)
  {
    match read(a)
    case NoExcerpt => assert rs + [] == rs;
    case NoContent(_, _) => PlainExcerpted(acc.contents, acc.firstByDigest, rs, a, read);
    case WithContent(_, _) =>
      if KeyOf(a) !in acc.firstByDigest {
        NewKeyExcerpted(acc.contents, acc.firstByDigest, rs, a, read);
      } else {
        OldKeyExcerpted(acc.contents, acc.firstByDigest, rs, a, read);
      }
  }

  lemma AddedKnown(acc: Collected, a: ArtifactRecord, read: ArtifactRecord -> Excerpt, paths: seq<string>)
    requires WellFounded(acc, paths)
    ensures var next := Added(acc, a, read);
      WellFounded(next, paths + [a.path]) && (a.path !in paths && Consistent(acc) ==> Consistent(next))
  {
    match read(a)
    case NoExcerpt =>
    case NoContent(fields, reason) => PlainAdded(acc, ContentEntry(a.path, fields, Unavailable(reason)), paths);
    case WithContent(fields, content) =>
      if KeyOf(a) !in acc.firstByDigest {
        var c := ContentEntry(a.path, fields, Verbatim(content));
        PlainAdded(acc, c, paths);
        assert CarriesContent(acc.contents + [c], a.path) by { assert (acc.contents + [c])[|acc.contents|] == c; }
      } else {
        var first := acc.firstByDigest[KeyOf(a)];
        DuplicateAdded(acc, ContentEntry(a.path, fields, DuplicateOf(first)), first, paths);
      }
  }

  lemma PlainAdded(acc: Collected, c: ContentEntry, paths: seq<string>)
    requires FromPaths(acc, paths) && KeysCarryContent(acc) && !c.body.DuplicateOf?
    ensures var next := acc.(contents := acc.contents + [c]);
      && FromPaths(next, paths + [c.path]) && KeysCarryContent(next)
      && (c.path !in paths && Consistent(acc) ==> Consistent(next))
  {
    var next := acc.(contents := acc.contents + [c]);
    Carried(acc.contents, c);
    if c.path !in paths && Consistent(acc) {
      forall d | d in next.contents && d.body.DuplicateOf?
        ensures CarriesContent(next.contents, d.body.path)
      {
        assert d in acc.contents;
        assert CarriesContent(acc.contents, d.body.path);
      }
      assert NoDangling(next.contents);
    }
  }

  lemma DuplicateAdded(acc: Collected, c: ContentEntry, first: string, paths: seq<string>)
    requires FromPaths(acc, paths) && KeysCarryContent(acc) && c.body == DuplicateOf(first)
    requires CarriesContent(acc.contents, first)
    ensures var dependents := DependentsOf(acc.table, first) + [c.path];
      var next := acc.(contents := acc.contents + [c], table := acc.table[first := dependents]);
      && FromPaths(next, paths + [c.path]) && KeysCarryContent(next)
      && (c.path !in paths && Consistent(acc) ==> Consistent(next))
  {
    var dependents := DependentsOf(acc.table, first) + [c.path];
    var next := acc.(contents := acc.contents + [c], table := acc.table[first := dependents]);
    Carried(acc.contents, c);
    if c.path !in paths && Consistent(acc) {
      forall d | d in next.contents && d.body.DuplicateOf?
        ensures CarriesContent(next.contents, d.body.path)
      {
        assert CarriesContent(acc.contents, d.body.path);
      }
      assert NoDangling(next.contents);
    }
  }

  lemma Carried(contents: seq<ContentEntry>, c: ContentEntry)
    ensures forall x :: x in contents + [c] <==> x in contents || x == c
    ensures forall p :: CarriesContent(contents, p) ==> CarriesContent(contents + [c], p)
  {
  }

  // ---------------------------------------------------------------------------
  // The order of dropping
  // ---------------------------------------------------------------------------

  /** One turn to drop: the content, the inventory line, or the summary of one name. */
  datatype Turn = ContentTurn(path: string) | ArtifactTurn(path: string) | JobTurn(jobId: string)

  /** Logs and tables first, then the inventory, the jobs, status and report, and evaluator output last. */
  function Rank(t: Turn, fileName: string -> string): nat {
    match t
    case ArtifactTurn(_) => 1
    case JobTurn(_) => 2
    case ContentTurn(p) =>
      if InPriority2(fileName(p)) then 0
      else if InPriority1(fileName(p)) then 3
      else 4
  }

  function TurnOf(c: ContentEntry): Turn { ContentTurn(c.path) }

  function TierTurns(contents: seq<ContentEntry>, tier: string -> bool, fileName: string -> string): seq<Turn> {
    var chosen := Filter(contents, (c: ContentEntry) => tier(fileName(c.path)));
    Map(Sort(chosen, (a: ContentEntry, b: ContentEntry) => StrLeq(a.path, b.path)), TurnOf)
  }

  function ArtifactTurns(artifacts: seq<ArtifactEntry>): seq<Turn> {
    Map(Sort(artifacts, (a: ArtifactEntry, b: ArtifactEntry) => StrLeq(a.path, b.path)),
        (a: ArtifactEntry) => ArtifactTurn(a.path))
  }

  function JobTurns(jobs: seq<JobEntry>): seq<Turn> {
    Map(Sort(jobs, (a: JobEntry, b: JobEntry) => StrLeq(a.jobId, b.jobId)), (j: JobEntry) => JobTurn(j.jobId))
  }

  /** _drop_candidates. */
  function DropCandidates(s: Snapshot, fileName: string -> string): seq<Turn> {
    TierTurns(s.contents, InPriority2, fileName)
    + ArtifactTurns(s.artifacts)
    + JobTurns(s.jobs)
    + TierTurns(s.contents, InPriority1, fileName)
    + TierTurns(s.contents, InVerbatim, fileName)
  }

  ghost predicate Ordered(turns: seq<Turn>, fileName: string -> string) {
    forall i, j :: 0 <= i < j < |turns| ==> Rank(turns[i], fileName) <= Rank(turns[j], fileName)
  }

  /** Every entry of the snapshot still has a turn to come, each content entry one of its own. */
  ghost predicate Covers(turns: seq<Turn>, s: Snapshot) {
    && multiset(Map(s.contents, TurnOf)) <= multiset(turns)
    && (forall a :: a in s.artifacts ==> ArtifactTurn(a.path) in turns)
    && (forall j :: j in s.jobs ==> JobTurn(j.jobId) in turns)
  }

  /** Turns of inventory lines and jobs name entries that are there. */
  ghost predicate Known(turns: seq<Turn>, s: Snapshot) {
    && (forall p :: ArtifactTurn(p) in turns ==> exists a :: a in s.artifacts && a.path == p)
    && (forall i :: JobTurn(i) in turns ==> exists j :: j in s.jobs && j.jobId == i)
  }

  lemma TierTurnsIn(contents: seq<ContentEntry>, tier: string -> bool, fileName: string -> string, t: Turn)
    requires t in TierTurns(contents, tier, fileName)
    ensures t.ContentTurn? && tier(fileName(t.path))
  {
    var chosen := Filter(contents, (c: ContentEntry) => tier(fileName(c.path)));
    var sorted := Sort(chosen, (a: ContentEntry, b: ContentEntry) => StrLeq(a.path, b.path));
    var i :| 0 <= i < |sorted| && TierTurns(contents, tier, fileName)[i] == t;
    assert sorted[i] in multiset(sorted);
    assert sorted[i] in chosen;
  }

  lemma ArtifactTurnsIn(artifacts: seq<ArtifactEntry>, t: Turn)
    ensures t in ArtifactTurns(artifacts) <==> exists a :: a in artifacts && t == ArtifactTurn(a.path)
  {
    var f := (a: ArtifactEntry) => ArtifactTurn(a.path);
    var leq := (a: ArtifactEntry, b: ArtifactEntry) => StrLeq(a.path, b.path);
    MapSort(artifacts, leq, f);
    assert t in multiset(ArtifactTurns(artifacts)) <==> t in multiset(Map(artifacts, f));
    if a :| a in artifacts && t == ArtifactTurn(a.path) {
      var i :| 0 <= i < |artifacts| && artifacts[i] == a;
      assert Map(artifacts, f)[i] == t;
    }
  }

  lemma JobTurnsIn(jobs: seq<JobEntry>, t: Turn)
    ensures t in JobTurns(jobs) <==> exists j :: j in jobs && t == JobTurn(j.jobId)
  {
    var f := (j: JobEntry) => JobTurn(j.jobId);
    var leq := (a: JobEntry, b: JobEntry) => StrLeq(a.jobId, b.jobId);
    MapSort(jobs, leq, f);
    assert t in multiset(JobTurns(jobs)) <==> t in multiset(Map(jobs, f));
    if j :| j in jobs && t == JobTurn(j.jobId) {
      var i :| 0 <= i < |jobs| && jobs[i] == j;
      assert Map(jobs, f)[i] == t;
    }
  }

  /** A tier holds every turn of a path whose file name is in it. */
  lemma {:induction false} TierCount(contents: seq<ContentEntry>, tier: string -> bool, fileName: string -> string,
      p: string)
    requires tier(fileName(p))
    ensures multiset(TierTurns(contents, tier, fileName))[ContentTurn(p)] ==
      multiset(Map(contents, TurnOf))[ContentTurn(p)]
  {
    var test := (c: ContentEntry) => tier(fileName(c.path));
    MapSort(Filter(contents, test), (a: ContentEntry, b: ContentEntry) => StrLeq(a.path, b.path), TurnOf);
    FilteredCount(contents, test, p, fileName, tier);
  }

  lemma {:induction false} FilteredCount(
      contents: seq<ContentEntry>, test: ContentEntry -> bool, p: string, fileName: string -> string,
      tier: string -> bool)
    requires tier(fileName(p)) && forall c :: test(c) == tier(fileName(c.path))
    ensures multiset(Map(Filter(contents, test), TurnOf))[ContentTurn(p)] ==
      multiset(Map(contents, TurnOf))[ContentTurn(p)]
  {
    if contents != [] {
      assert contents == [contents[0]] + contents[1..];
      FilteredCount(contents[1..], test, p, fileName, tier);
      MapCons(contents[0], contents[1..], TurnOf);
      MapCons(contents[0], Filter(contents[1..], test), TurnOf);
    }
  }

  lemma CandidatesOrdered(s: Snapshot, fileName: string -> string)
    ensures Ordered(DropCandidates(s, fileName), fileName)
  {
    var a, b, c := TierTurns(s.contents, InPriority2, fileName), ArtifactTurns(s.artifacts), JobTurns(s.jobs);
    var d, e := TierTurns(s.contents, InPriority1, fileName), TierTurns(s.contents, InVerbatim, fileName);
    forall t | t in a ensures Rank(t, fileName) == 0 { TierTurnsIn(s.contents, InPriority2, fileName, t); }
    forall t | t in b ensures Rank(t, fileName) == 1 { ArtifactTurnsIn(s.artifacts, t); }
    forall t | t in c ensures Rank(t, fileName) == 2 { JobTurnsIn(s.jobs, t); }
    forall t | t in d ensures Rank(t, fileName) == 3 {
      TierTurnsIn(s.contents, InPriority1, fileName, t);
      TiersApart(fileName(t.path));
    }
    forall t | t in e ensures Rank(t, fileName) == 4 {
      TierTurnsIn(s.contents, InVerbatim, fileName, t);
      TiersApart(fileName(t.path));
    }
    FlatOrdered(a, fileName, 0);
    FlatOrdered(b, fileName, 1);
    JoinOrdered(a, b, fileName, 0, 1);
    FlatOrdered(c, fileName, 2);
    JoinOrdered(a + b, c, fileName, 1, 2);
    FlatOrdered(d, fileName, 3);
    JoinOrdered(a + b + c, d, fileName, 2, 3);
    FlatOrdered(e, fileName, 4);
    JoinOrdered(a + b + c + d, e, fileName, 3, 4);
  }

  lemma FlatOrdered(ts: seq<Turn>, fileName: string -> string, rank: nat)
    requires forall t :: t in ts ==> Rank(t, fileName) == rank
    ensures Ordered(ts, fileName)
  {
  }

  lemma JoinOrdered(ts: seq<Turn>, us: seq<Turn>, fileName: string -> string, low: nat, high: nat)
    requires Ordered(ts, fileName) && Ordered(us, fileName) && low <= high
    requires (forall t :: t in ts ==> Rank(t, fileName) <= low) && (forall u :: u in us ==> Rank(u, fileName) == high)
    ensures Ordered(ts + us, fileName) && forall t :: t in ts + us ==> Rank(t, fileName) <= high
  {
  }

  /** No file name is in two tiers. */
  lemma TiersApart(name: string)
    ensures !(InPriority2(name) && InPriority1(name))
    ensures !(InPriority2(name) && InVerbatim(name))
    ensures !(InPriority1(name) && InVerbatim(name))
  {
    ComparisonInitial(name);
    Initials(name);
  }

  lemma ComparisonInitial(name: string)
    ensures IsComparisonFilename(name) ==> name != "" && name[0] == 'c'
  {
    if StartsWith(name, "comparison-") {
      assert name[0] == "comparison-"[0];
    }
  }

  lemma Initials(name: string)
    ensures InPriority2(name) ==> name != "" && (name[0] == 'r' || name[0] == 'm' || name[0] == 'f') && |name| < 13
    ensures InPriority1(name) ==> name != "" && (name[0] == 's' || name[0] == 'r')
    ensures InPriority2(name) && InPriority1(name) ==> false
    ensures InPriority2(name) ==> name !in VERBATIM_FILENAMES
    ensures InPriority1(name) ==> name !in VERBATIM_FILENAMES
  {
    assert |"runner.log"| == 10 && |"metrics.csv"| == 11 && |"fairness.csv"| == 12;
    assert |"status.json"| == 11 && |"report.md"| == 9;
    assert |"evaluation.json"| == 15 && |"metrics.json"| == 12 && |"comparison.json"| == 15;
    assert "status.json"[0] == 's' && "metrics.csv"[0] == 'm' && "fairness.csv"[0] == 'f' && "metrics.json"[0] == 'm';
    assert "runner.log"[0] == 'r' && "report.md"[0] == 'r';
  }

  /** Each content entry has a turn of its own. */
  lemma ContentsCovered(s: Snapshot, fileName: string -> string)
    requires forall c :: c in s.contents ==> InSomeTier(fileName(c.path))
    ensures multiset(Map(s.contents, TurnOf)) <= multiset(DropCandidates(s, fileName))
  {
    var turns, own := DropCandidates(s, fileName), Map(s.contents, TurnOf);
    forall t ensures multiset(own)[t] <= multiset(turns)[t] {
      if t in multiset(own) {
        var i :| 0 <= i < |own| && own[i] == t;
        assert s.contents[i] in s.contents;
        var p := s.contents[i].path;
        if InPriority2(fileName(p)) {
          TierCount(s.contents, InPriority2, fileName, p);
        } else if InPriority1(fileName(p)) {
          TierCount(s.contents, InPriority1, fileName, p);
        } else {
          TierCount(s.contents, InVerbatim, fileName, p);
        }
      }
    }
  }

  /** The turns of inventory lines and jobs are exactly those of the entries. */
  lemma OtherTurns(s: Snapshot, fileName: string -> string, t: Turn)
    requires !t.ContentTurn?
    ensures t in DropCandidates(s, fileName) <==> t in ArtifactTurns(s.artifacts) || t in JobTurns(s.jobs)
  {
    if t in TierTurns(s.contents, InPriority2, fileName) { TierTurnsIn(s.contents, InPriority2, fileName, t); }
    if t in TierTurns(s.contents, InPriority1, fileName) { TierTurnsIn(s.contents, InPriority1, fileName, t); }
    if t in TierTurns(s.contents, InVerbatim, fileName) { TierTurnsIn(s.contents, InVerbatim, fileName, t); }
  }

  lemma CandidatesCover(s: Snapshot, fileName: string -> string)
    requires forall c :: c in s.contents ==> InSomeTier(fileName(c.path))
    ensures Covers(DropCandidates(s, fileName), s)
    ensures Known(DropCandidates(s, fileName), s)
  {
    ContentsCovered(s, fileName);
    forall p
      ensures ArtifactTurn(p) in DropCandidates(s, fileName) <==> exists a :: a in s.artifacts && a.path == p
    {
      OtherTurns(s, fileName, ArtifactTurn(p));
      ArtifactTurnsIn(s.artifacts, ArtifactTurn(p));
      JobTurnsIn(s.jobs, ArtifactTurn(p));
    }
    forall i
      ensures JobTurn(i) in DropCandidates(s, fileName) <==> exists j :: j in s.jobs && j.jobId == i
    {
      OtherTurns(s, fileName, JobTurn(i));
      ArtifactTurnsIn(s.artifacts, JobTurn(i));
      JobTurnsIn(s.jobs, JobTurn(i));
    }
  }

  // ---------------------------------------------------------------------------
  // Dropping one content entry
  // ---------------------------------------------------------------------------

  predicate HasPath(contents: seq<ContentEntry>, path: string) {
    exists i :: 0 <= i < |contents| && contents[i].path == path
  }

  /** The list without the first entry of that path, and that entry. */
  function TakeFirst(contents: seq<ContentEntry>, path: string): (r: (seq<ContentEntry>, seq<ContentEntry>))
    ensures |r.1| == (if HasPath(contents, path) then 1 else 0)
    ensures r.1 != [] ==> r.1[0].path == path
    ensures r.1 == [] ==> r.0 == contents
  {
    if contents == [] then ([], [])
    else
      if contents[0].path == path then (contents[1..], [contents[0]])
      else
        var rest := TakeFirst(contents[1..], path);
        TailHasPath(contents, path);
        ([contents[0]] + rest.0, rest.1)
  }

  lemma TailHasPath(contents: seq<ContentEntry>, path: string)
    requires contents != [] && contents[0].path != path
    ensures HasPath(contents, path) == HasPath(contents[1..], path)
  {
    if i :| 0 <= i < |contents| && contents[i].path == path { assert contents[1..][i - 1].path == path; }
    if i :| 0 <= i < |contents[1..]| && contents[1..][i].path == path { assert contents[i + 1].path == path; }
  }

  lemma {:induction false} TakeFirstBag(contents: seq<ContentEntry>, path: string)
    ensures var r := TakeFirst(contents, path); multiset(contents) == multiset(r.0) + multiset(r.1)
  {
    if contents != [] {
      assert contents == [contents[0]] + contents[1..];
      if contents[0].path != path { TakeFirstBag(contents[1..], path); }
    }
  }

  lemma {:induction false} TakeEachBag(contents: seq<ContentEntry>, paths: seq<string>)
    ensures var r := TakeEach(contents, paths); multiset(contents) == multiset(r.0) + multiset(r.1)
    decreases |paths|
  {
    if paths != [] {
      TakeFirstBag(contents, paths[0]);
      TakeEachBag(TakeFirst(contents, paths[0]).0, paths[1..]);
    }
  }

  lemma DropContentBag(contents: seq<ContentEntry>, table: Dependents, path: string)
    ensures var r := DropContent(contents, table, path);
      multiset(contents) == multiset(r.0) + multiset(r.1) && (r.1 == [] ==> r.0 == contents)
  {
    TakeFirstBag(contents, path);
    TakeEachBag(TakeFirst(contents, path).0, DependentsOf(table, path));
  }

  /** The list without the first entry of each path in turn, and the entries taken. */
  function TakeEach(contents: seq<ContentEntry>, paths: seq<string>): (seq<ContentEntry>, seq<ContentEntry>)
    decreases |paths|
  {
    if paths == [] then (contents, [])
    else
      var first := TakeFirst(contents, paths[0]);
      var rest := TakeEach(first.0, paths[1..]);
      (rest.0, first.1 + rest.1)
  }

  function DependentsOf(table: Dependents, path: string): seq<string> {
    if path in table then table[path] else []
  }

  /** _drop_content_entry: what stays, and what goes: the entry and then its dependents. */
  function DropContent(contents: seq<ContentEntry>, table: Dependents, path: string):
    (seq<ContentEntry>, seq<ContentEntry>)
  {
    if !HasPath(contents, path) then (contents, [])
    else
      var first := TakeFirst(contents, path);
      var rest := TakeEach(first.0, DependentsOf(table, path));
      (rest.0, first.1 + rest.1)
  }

  /** What one turn takes away and adds to the list of what was dropped. */
  function DropTurn(s: Snapshot, dropped: seq<Reference>, turn: Turn, table: Dependents): (Snapshot, seq<Reference>) {
    match turn
    case ContentTurn(path) =>
      var r := DropContent(s.contents, table, path);
      (s.(contents := r.0), AddReferences(dropped, Map(r.1, ReferenceOf)))
    case ArtifactTurn(path) =>
      (s.(artifacts := Filter(s.artifacts, (a: ArtifactEntry) => a.path != path)),
        AddReferences(dropped, [ArtifactReference(path)]))
    case JobTurn(jobId) =>
      (s.(jobs := Filter(s.jobs, (j: JobEntry) => j.jobId != jobId)), AddReferences(dropped, [JobReference(jobId)]))
  }

  function DropTurns(s: Snapshot, turns: seq<Turn>, table: Dependents): (Snapshot, seq<Reference>) {
    if turns == [] then (s, [])
    else
      var before := DropTurns(s, turns[..|turns| - 1], table);
      DropTurn(before.0, before.1, turns[|turns| - 1], table)
  }

  /** The snapshot as it is measured: with the note that goes with what has been dropped. */
  function Provisional(s: Snapshot, dropped: seq<Reference>): Snapshot {
    s.(note := if dropped == [] then None else Some(TruncationNote(dropped)))
  }

  /** With the first 25 of what was dropped and its number, or without a note if nothing was. */
  lemma MeasuredWithNote(s: Snapshot, dropped: seq<Reference>)
    ensures Provisional(s, dropped) ==
      s.(note := if |dropped| == 0 then None
                 else Some(NoteListing(dropped, if |dropped| < 25 then |dropped| else 25)))
  {
    TruncationLists(dropped);
  }

  ghost predicate FitsAfter(before: Snapshot, turns: seq<Turn>, table: Dependents, size: Snapshot -> nat, budget: nat) {
    var r := DropTurns(before, turns, table);
    size(Provisional(r.0, r.1)) <= budget
  }

  /** The first `k` turns were taken because nothing less was enough, and no further one was needed or left. */
  ghost predicate TookLeast(before: Snapshot, turns: seq<Turn>, k: nat, table: Dependents, size: Snapshot -> nat,
      budget: nat)
  {
    && k <= |turns|
    && (forall j :: 0 <= j < k ==> !FitsAfter(before, turns[..j], table, size, budget))
    && (k == |turns| || FitsAfter(before, turns[..k], table, size, budget))
  }

  /** After `k` turns, none of which could be spared. */
  ghost predicate Trimming(before: Snapshot, turns: seq<Turn>, k: nat, table: Dependents, size: Snapshot -> nat,
      budget: nat, s: Snapshot, dropped: seq<Reference>)
  {
    && k <= |turns| && (s, dropped) == DropTurns(before, turns[..k], table)
    && forall j :: 0 <= j < k ==> !FitsAfter(before, turns[..j], table, size, budget)
  }

  lemma TrimmingNext(before: Snapshot, turns: seq<Turn>, k: nat, table: Dependents, size: Snapshot -> nat, budget: nat,
      s: Snapshot, dropped: seq<Reference>)
    requires Trimming(before, turns, k, table, size, budget, s, dropped) && k < |turns|
    requires size(Provisional(s, dropped)) > budget
    ensures var r := DropTurn(s, dropped, turns[k], table);
      Trimming(before, turns, k + 1, table, size, budget, r.0, r.1)
  {
    DropTurnsNext(before, turns, k, table);
    assert !FitsAfter(before, turns[..k], table, size, budget);
  }

  lemma TrimmingStops(before: Snapshot, turns: seq<Turn>, k: nat, table: Dependents, size: Snapshot -> nat, budget: nat,
      s: Snapshot, dropped: seq<Reference>)
    requires Trimming(before, turns, k, table, size, budget, s, dropped)
    ensures size(Provisional(s, dropped)) <= budget ==> TookLeast(before, turns, k, table, size, budget)
  {
  }

  lemma TrimmingEnds(before: Snapshot, turns: seq<Turn>, k: nat, table: Dependents, size: Snapshot -> nat, budget: nat,
      s: Snapshot, dropped: seq<Reference>)
    requires Trimming(before, turns, k, table, size, budget, s, dropped) && turns[k..] == []
    ensures TookLeast(before, turns, k, table, size, budget)
  {
  }

  lemma DropTurnsNext(before: Snapshot, turns: seq<Turn>, k: nat, table: Dependents)
    requires k < |turns|
    ensures DropTurns(before, turns[..k + 1], table) ==
      var r := DropTurns(before, turns[..k], table); DropTurn(r.0, r.1, turns[k], table)
  {
    assert turns[..k + 1][..k] == turns[..k];
  }

  lemma {:induction false} TakeFirstTurns(contents: seq<ContentEntry>, path: string)
    ensures multiset(Map(contents, TurnOf)) ==
      multiset(Map(TakeFirst(contents, path).0, TurnOf)) +
      (if HasPath(contents, path) then multiset{ContentTurn(path)} else multiset{})
  {
    if contents != [] {
      var c, rest := contents[0], contents[1..];
      assert contents == [c] + rest;
      MapCons(c, rest, TurnOf);
      if c.path == path {
        assert HasPath(contents, path);
      } else {
        TakeFirstTurns(rest, path);
        MapCons(c, TakeFirst(rest, path).0, TurnOf);
        assert |TakeFirst(contents, path).1| == |TakeFirst(rest, path).1|;
      }
    }
  }

  lemma {:induction false} TakeEachTurns(contents: seq<ContentEntry>, paths: seq<string>)
    ensures multiset(Map(TakeEach(contents, paths).0, TurnOf)) <= multiset(Map(contents, TurnOf))
    decreases |paths|
  {
    if paths != [] {
      TakeFirstTurns(contents, paths[0]);
      TakeEachTurns(TakeFirst(contents, paths[0]).0, paths[1..]);
    }
  }

  /** After the turn of a path the remaining turns still cover the remaining content. */
  lemma DropContentCovered(contents: seq<ContentEntry>, table: Dependents, path: string, rest: seq<Turn>)
    requires multiset(Map(contents, TurnOf)) <= multiset([ContentTurn(path)] + rest)
    ensures multiset(Map(DropContent(contents, table, path).0, TurnOf)) <= multiset(rest)
  {
    TakeFirstTurns(contents, path);
    if HasPath(contents, path) {
      TakeEachTurns(TakeFirst(contents, path).0, DependentsOf(table, path));
    } else {
      AbsentTurn(contents, path);
    }
  }

  lemma AbsentTurn(contents: seq<ContentEntry>, path: string)
    ensures ContentTurn(path) in Map(contents, TurnOf) ==> HasPath(contents, path)
  {
    var m := Map(contents, TurnOf);
    if ContentTurn(path) in m {
      var i :| 0 <= i < |m| && m[i] == ContentTurn(path);
      assert contents[i].path == path;
    }
  }

  // With distinct paths

  lemma DistinctTail(contents: seq<ContentEntry>)
    requires contents != [] && DistinctPaths(contents)
    ensures DistinctPaths(contents[1..]) && forall x :: x in contents[1..] ==> x.path != contents[0].path
  {
  }

  lemma DistinctCons(c: ContentEntry, rest: seq<ContentEntry>)
    requires DistinctPaths(rest) && forall x :: x in rest ==> x.path != c.path
    ensures DistinctPaths([c] + rest)
  {
  }

  lemma {:induction false} TakeFirstDistinct(contents: seq<ContentEntry>, path: string)
    requires DistinctPaths(contents)
    ensures DistinctPaths(TakeFirst(contents, path).0)
    ensures forall c :: c in TakeFirst(contents, path).0 <==> c in contents && c.path != path
  {
    if contents != [] {
      var c, rest := contents[0], contents[1..];
      assert contents == [c] + rest;
      DistinctTail(contents);
      if c.path != path {
        TakeFirstDistinct(rest, path);
        DistinctCons(c, TakeFirst(rest, path).0);
      }
    }
  }

  lemma {:induction false} TakeEachDistinct(contents: seq<ContentEntry>, paths: seq<string>)
    requires DistinctPaths(contents)
    ensures DistinctPaths(TakeEach(contents, paths).0)
    ensures forall c :: c in TakeEach(contents, paths).0 <==> c in contents && c.path !in paths
    ensures forall c :: c in TakeEach(contents, paths).1 <==> c in contents && c.path in paths
    decreases |paths|
  {
    if paths != [] {
      assert paths == [paths[0]] + paths[1..];
      TakeFirstDistinct(contents, paths[0]);
      var first := TakeFirst(contents, paths[0]);
      TakenFirst(contents, paths[0]);
      TakeEachDistinct(first.0, paths[1..]);
    }
  }

  lemma TakenFirst(contents: seq<ContentEntry>, path: string)
    requires DistinctPaths(contents)
    ensures forall c :: c in TakeFirst(contents, path).1 <==> c in contents && c.path == path
  {
    TakeFirstDistinct(contents, path);
    TakeFirstBag(contents, path);
    var r := TakeFirst(contents, path);
    forall c ensures c in r.1 <==> c in contents && c.path == path {
      assert c in multiset(contents) <==> c in multiset(r.0) || c in multiset(r.1);
    }
  }

  /** What is dropped with distinct paths: the entry itself and the duplicates that refer to it. */
  lemma DropContentDistinct(contents: seq<ContentEntry>, table: Dependents, path: string)
    requires DistinctPaths(contents) && ListsDependents(table, contents)
    ensures var r := DropContent(contents, table, path);
      && DistinctPaths(r.0) && ListsDependents(table, r.0)
      && (forall c :: c in r.0 ==> c in contents)
      && (forall c :: c in r.1 ==> c in contents && (c.path == path || c.body == DuplicateOf(path)))
      && (NoDangling(contents) ==> NoDangling(r.0))
      && (HasPath(contents, path) ==> exists c :: c in r.1 && c.path == path)
  {
    if HasPath(contents, path) {
      var first := TakeFirst(contents, path);
      var deps := DependentsOf(table, path);
      TakeFirstDistinct(contents, path);
      TakenFirst(contents, path);
      TakeEachDistinct(first.0, deps);
      var r := DropContent(contents, table, path);
      assert first.1[0] in r.1;
      forall d | NoDangling(contents) && d in r.0 && d.body.DuplicateOf?
        ensures CarriesContent(r.0, d.body.path)
      {
        assert d in contents;
        var rep :| rep in contents && rep.path == d.body.path && rep.body.Verbatim?;
        assert d.path in table[d.body.path];
        assert rep.path != path;
        assert rep.path !in deps;
        assert rep in r.0;
      }
    }
  }

  // ---------------------------------------------------------------------------
  // Trimming
  // ---------------------------------------------------------------------------

  /** What trimming has removed: content entries, inventory paths and job ids. */
  datatype Gone = Gone(contents: seq<ContentEntry>, artifacts: set<string>, jobs: set<string>)

  const NOTHING_GONE := Gone([], {}, {})

  /** The reference names something that has been removed. */
  ghost predicate Removed(gone: Gone, r: Reference) {
    match r
    case ArtifactReference(p) => (exists c :: c in gone.contents && c.path == p) || p in gone.artifacts
    case JobReference(i) => i in gone.jobs
  }

  function ReferenceOf(c: ContentEntry): Reference { ArtifactReference(c.path) }

  /** `if r not in dropped_set: dropped.append(r)`, for each in turn. */
  function AddReferences(dropped: seq<Reference>, rs: seq<Reference>): (r: seq<Reference>)
    ensures forall x :: x in r <==> x in dropped || x in rs
    ensures NoDuplicates(dropped) ==> NoDuplicates(r)
    decreases |rs|
  {
    if rs == [] then dropped
    else
      assert rs == [rs[0]] + rs[1..];
      AddReferences(if rs[0] in dropped then dropped else dropped + [rs[0]], rs[1..])
  }

  /** The content entries there were are the retained and the removed ones. */
  ghost predicate Partitioned(before: Snapshot, cur: Snapshot, gone: Gone) {
    multiset(before.contents) == multiset(cur.contents) + multiset(gone.contents)
  }

  /** Exactly the inventory lines of the removed paths, and the jobs of the removed ids, are missing. */
  ghost predicate KeptOthers(before: Snapshot, cur: Snapshot, gone: Gone) {
    && cur.artifacts == Filter(before.artifacts, (a: ArtifactEntry) => a.path !in gone.artifacts)
    && cur.jobs == Filter(before.jobs, (j: JobEntry) => j.jobId !in gone.jobs)
    && (forall p :: p in gone.artifacts ==> exists a :: a in before.artifacts && a.path == p)
    && (forall i :: i in gone.jobs ==> exists j :: j in before.jobs && j.jobId == i)
  }

  /** Every removal is noted, once, and nothing else is. */
  ghost predicate Recorded(gone: Gone, dropped: seq<Reference>) {
    NoDuplicates(dropped) && forall r :: r in dropped <==> Removed(gone, r)
  }

  ghost predicate Conserved(before: Snapshot, cur: Snapshot, gone: Gone, dropped: seq<Reference>) {
    && Partitioned(before, cur, gone) && KeptOthers(before, cur, gone) && Recorded(gone, dropped)
    && (dropped == [] ==> cur == before)
  }

  ghost predicate OnlyVerbatimLeft(cur: Snapshot, fileName: string -> string) {
    cur.jobs == [] && cur.artifacts == [] && forall c :: c in cur.contents ==> Rank(TurnOf(c), fileName) == 4
  }

  /** Evaluator output went only when nothing else was left, or with the entry it duplicated. */
  ghost predicate VerbatimLast(cur: Snapshot, gone: Gone, fileName: string -> string) {
    forall e :: e in gone.contents && InVerbatim(fileName(e.path)) ==>
      || OnlyVerbatimLeft(cur, fileName)
      || (e.body.DuplicateOf? && exists r :: r in gone.contents && r.path == e.body.path)
  }

  /** What holds of the snapshot when no two artifacts have the same path. */
  ghost predicate Intact(cur: Snapshot, gone: Gone, table: Dependents, fileName: string -> string) {
    && DistinctPaths(cur.contents) && ListsDependents(table, cur.contents)
    && NoDangling(cur.contents) && VerbatimLast(cur, gone, fileName)
  }

  lemma ContentTurnConserves(before: Snapshot, cur: Snapshot, gone: Gone, dropped: seq<Reference>, table: Dependents,
      path: string)
    requires Conserved(before, cur, gone, dropped)
    ensures var r := DropContent(cur.contents, table, path);
      Conserved(before, cur.(contents := r.0), gone.(contents := gone.contents + r.1),
        AddReferences(dropped, Map(r.1, ReferenceOf)))
  {
    var r := DropContent(cur.contents, table, path);
    DropContentBag(cur.contents, table, path);
    ContentsRecorded(gone, dropped, r.1);
    var refs := Map(r.1, ReferenceOf);
    if AddReferences(dropped, refs) == [] {
      assert forall x :: x !in refs;
      NoMembers(refs);
    }
  }

  lemma ContentsRecorded(gone: Gone, dropped: seq<Reference>, taken: seq<ContentEntry>)
    requires Recorded(gone, dropped)
    ensures Recorded(gone.(contents := gone.contents + taken), AddReferences(dropped, Map(taken, ReferenceOf)))
  {
    var refs, gone' := Map(taken, ReferenceOf), gone.(contents := gone.contents + taken);
    forall x ensures Removed(gone', x) <==> Removed(gone, x) || x in refs {
      MappedReferences(taken, x);
      assert forall c :: c in gone'.contents <==> c in gone.contents || c in taken;
    }
  }

  lemma MappedReferences(cs: seq<ContentEntry>, x: Reference)
    ensures x in Map(cs, ReferenceOf) <==> exists c :: c in cs && x == ArtifactReference(c.path)
  {
    if c :| c in cs && x == ArtifactReference(c.path) {
      var i :| 0 <= i < |cs| && cs[i] == c;
      assert Map(cs, ReferenceOf)[i] == x;
    }
  }

  lemma ContentTurnIntact(cur: Snapshot, gone: Gone, table: Dependents, path: string, rest: seq<Turn>,
      fileName: string -> string)
    requires Intact(cur, gone, table, fileName)
    requires Ordered([ContentTurn(path)] + rest, fileName) && Covers([ContentTurn(path)] + rest, cur)
    ensures var r := DropContent(cur.contents, table, path);
      Intact(cur.(contents := r.0), gone.(contents := gone.contents + r.1), table, fileName)
  {
    var r := DropContent(cur.contents, table, path);
    DropContentDistinct(cur.contents, table, path);
    DropContentCovered(cur.contents, table, path, rest);
    var cur', gone' := cur.(contents := r.0), gone.(contents := gone.contents + r.1);
    if Rank(ContentTurn(path), fileName) == 4 {
      VerbatimTurnLast(cur, r.0, ContentTurn(path), rest, fileName);
    }
    forall e | e in gone'.contents && InVerbatim(fileName(e.path))
      ensures
        || OnlyVerbatimLeft(cur', fileName)
        || (e.body.DuplicateOf? && exists x :: x in gone'.contents && x.path == e.body.path)
    {
      TiersApart(fileName(e.path));
      if e in gone.contents {
        if e.body.DuplicateOf? && exists x :: x in gone.contents && x.path == e.body.path {
          var x :| x in gone.contents && x.path == e.body.path;
          assert x in gone'.contents;
        }
      } else if e.path != path {
        assert HasPath(cur.contents, path);
        var x :| x in r.1 && x.path == path;
        assert x in gone'.contents;
      }
    }
  }

  lemma NoMembers<T>(s: seq<T>)
    ensures s != [] ==> s[0] in s
  {
  }

  /** When a turn of the last tier comes up, everything of the other tiers is gone. */
  lemma VerbatimTurnLast(cur: Snapshot, contents: seq<ContentEntry>, turn: Turn, rest: seq<Turn>,
      fileName: string -> string)
    requires turn.ContentTurn? && Rank(turn, fileName) == 4
    requires Ordered([turn] + rest, fileName) && Covers([turn] + rest, cur)
    requires multiset(Map(contents, TurnOf)) <= multiset(rest)
    ensures OnlyVerbatimLeft(cur.(contents := contents), fileName)
  {
    var turns := [turn] + rest;
    forall t | t in turns ensures Rank(t, fileName) >= 4 {
      var i :| 0 <= i < |turns| && turns[i] == t;
      assert Rank(turns[0], fileName) <= Rank(turns[i], fileName);
    }
    assert forall a :: a in cur.artifacts ==> Rank(ArtifactTurn(a.path), fileName) == 1;
    assert forall j :: j in cur.jobs ==> Rank(JobTurn(j.jobId), fileName) == 2;
    NoMembers(cur.artifacts);
    NoMembers(cur.jobs);
    forall c | c in contents ensures Rank(TurnOf(c), fileName) == 4 {
      var i :| 0 <= i < |contents| && contents[i] == c;
      var m := Map(contents, TurnOf);
      assert m[i] in multiset(m);
      assert TurnOf(c) in multiset(rest);
      assert TurnOf(c) in turns;
    }
  }

  lemma ArtifactTurnConserves(before: Snapshot, cur: Snapshot, gone: Gone, dropped: seq<Reference>, path: string)
    requires Conserved(before, cur, gone, dropped) && exists a :: a in before.artifacts && a.path == path
    ensures Conserved(before, cur.(artifacts := Filter(cur.artifacts, (a: ArtifactEntry) => a.path != path)),
      gone.(artifacts := gone.artifacts + {path}), AddReferences(dropped, [ArtifactReference(path)]))
  {
    var gone' := gone.(artifacts := gone.artifacts + {path});
    FilterFilter(before.artifacts, (a: ArtifactEntry) => a.path !in gone.artifacts,
      (a: ArtifactEntry) => a.path != path,
      (a: ArtifactEntry) => a.path !in gone'.artifacts);
    ReferenceRecorded(gone, gone', dropped, ArtifactReference(path));
  }

  lemma JobTurnConserves(before: Snapshot, cur: Snapshot, gone: Gone, dropped: seq<Reference>, jobId: string)
    requires Conserved(before, cur, gone, dropped) && exists j :: j in before.jobs && j.jobId == jobId
    ensures Conserved(before, cur.(jobs := Filter(cur.jobs, (j: JobEntry) => j.jobId != jobId)),
      gone.(jobs := gone.jobs + {jobId}), AddReferences(dropped, [JobReference(jobId)]))
  {
    var gone' := gone.(jobs := gone.jobs + {jobId});
    FilterFilter(before.jobs, (j: JobEntry) => j.jobId !in gone.jobs, (j: JobEntry) => j.jobId != jobId,
      (j: JobEntry) => j.jobId !in gone'.jobs);
    ReferenceRecorded(gone, gone', dropped, JobReference(jobId));
  }

  lemma ReferenceRecorded(gone: Gone, gone': Gone, dropped: seq<Reference>, r: Reference)
    requires Recorded(gone, dropped) && forall x :: Removed(gone', x) <==> Removed(gone, x) || x == r
    ensures Recorded(gone', AddReferences(dropped, [r])) && AddReferences(dropped, [r]) != []
  {
    assert r in AddReferences(dropped, [r]);
  }

  /** Once the turn of an inventory line or a job has been taken the other turns cover what remains. */
  lemma OtherTurnTaken(cur: Snapshot, turn: Turn, rest: seq<Turn>)
    requires !turn.ContentTurn? && Covers([turn] + rest, cur)
    ensures turn.ArtifactTurn? ==>
      Covers(rest, cur.(artifacts := Filter(cur.artifacts, (a: ArtifactEntry) => a.path != turn.path)))
    ensures turn.JobTurn? ==>
      Covers(rest, cur.(jobs := Filter(cur.jobs, (j: JobEntry) => j.jobId != turn.jobId)))
  {
    OtherTurnCovers(cur.contents, turn, rest);
  }

  lemma OtherTurnsStay(turn: Turn, rest: seq<Turn>, cur: Snapshot)
    requires turn.ContentTurn? && Covers([turn] + rest, cur)
    ensures (forall a :: a in cur.artifacts ==> ArtifactTurn(a.path) in rest)
    ensures (forall j :: j in cur.jobs ==> JobTurn(j.jobId) in rest)
  {
  }

  lemma NothingGoneYet(s: Snapshot)
    ensures Conserved(s, s, NOTHING_GONE, [])
  {
    FilterAll(s.artifacts, (a: ArtifactEntry) => a.path !in NOTHING_GONE.artifacts);
    FilterAll(s.jobs, (j: JobEntry) => j.jobId !in NOTHING_GONE.jobs);
  }

  /** A turn that is not for content leaves the content covered. */
  lemma OtherTurnCovers(contents: seq<ContentEntry>, turn: Turn, rest: seq<Turn>)
    requires !turn.ContentTurn? && multiset(Map(contents, TurnOf)) <= multiset([turn] + rest)
    ensures multiset(Map(contents, TurnOf)) <= multiset(rest)
  {
    var m := Map(contents, TurnOf);
    assert turn !in m;
    assert multiset([turn] + rest) == multiset{turn} + multiset(rest);
  }

  lemma TurnsTail(turns: seq<Turn>, s: Snapshot, fileName: string -> string)
    requires turns != [] && Ordered(turns, fileName) && Known(turns, s)
    ensures Ordered(turns[1..], fileName) && Known(turns[1..], s) && turns == [turns[0]] + turns[1..]
  {
  }

  /** Removing inventory lines or jobs leaves the rest intact. */
  lemma FewerIntact(cur: Snapshot, next: Snapshot, gone: Gone, gone': Gone, table: Dependents,
      fileName: string -> string)
    requires Intact(cur, gone, table, fileName)
    requires next.contents == cur.contents && gone'.contents == gone.contents
    requires (cur.artifacts == [] ==> next.artifacts == []) && (cur.jobs == [] ==> next.jobs == [])
    ensures Intact(next, gone', table, fileName)
  {
  }

  /** What is gone is recorded, and what is left waits for its turn. */
  ghost predicate Pending(before: Snapshot, cur: Snapshot, gone: Gone, dropped: seq<Reference>, left: seq<Turn>,
      fileName: string -> string)
  {
    && Conserved(before, cur, gone, dropped)
    && Ordered(left, fileName)
    && Covers(left, cur)
    && Known(left, before)
  }

  /** The trimming, `k` turns taken. */
  ghost predicate Underway(before: Snapshot, turns: seq<Turn>, k: nat, table: Dependents, size: Snapshot -> nat,
      budget: nat, fileName: string -> string, cur: Snapshot, dropped: seq<Reference>, gone: Gone)
  {
    && Trimming(before, turns, k, table, size, budget, cur, dropped)
    && Pending(before, cur, gone, dropped, turns[k..], fileName)
    && (Intact(before, NOTHING_GONE, table, fileName) ==> Intact(cur, gone, table, fileName))
  }

  /** The snapshot the prompt receives, built up and trimmed in place. */
  class EvidenceSnapshot {
    var jobs: seq<JobEntry>
    var artifacts: seq<ArtifactEntry>
    var contents: seq<ContentEntry>
    var note: Option<Note>

    ghost function View(): Snapshot
      reads this
    {
      Snapshot(jobs, artifacts, contents, note)
    }

    constructor (jobs: seq<JobEntry>, artifacts: seq<ArtifactEntry>, contents: seq<ContentEntry>)
      ensures View() == Snapshot(jobs, artifacts, contents, None)
    {
      this.jobs, this.artifacts, this.contents, this.note := jobs, artifacts, contents, None;
    }

    /** Remove one entry and then its dependents, each looked up afresh; report what went. */
    method DropContentEntry(table: Dependents, path: string) returns (removed: seq<ContentEntry>)
      modifies this`contents
      ensures (contents, removed) == DropContent(old(contents), table, path)
    {
      var (kept, taken) := TakeFirst(contents, path);
      if taken == [] {
        return [];
      }
      contents := kept;
      var dependents := DependentsOf(table, path);
      var also := [];
      for i := 0 to |dependents|
        invariant (contents, also) == TakeEach(kept, dependents[..i])
      {
        var (kept', taken') := TakeFirst(contents, dependents[i]);
        TakeEachSnoc(kept, dependents[..i], dependents[i]);
        assert dependents[..i + 1] == dependents[..i] + [dependents[i]];
        contents := kept';
        also := also + taken';
      }
      assert dependents[..|dependents|] == dependents;
      removed := taken + also;
    }

    /** Take the first turn of the candidates. */
    method TakeTurn(turn: Turn, rest: seq<Turn>, table: Dependents, fileName: string -> string,
        dropped: seq<Reference>, ghost before: Snapshot, ghost gone: Gone)
      returns (dropped': seq<Reference>, ghost gone': Gone)
      requires Pending(before, View(), gone, dropped, [turn] + rest, fileName)
      modifies this`jobs, this`artifacts, this`contents
      ensures (View(), dropped') == DropTurn(old(View()), dropped, turn, table)
      ensures Pending(before, View(), gone', dropped', rest, fileName)
      ensures old(Intact(View(), gone, table, fileName)) ==> Intact(View(), gone', table, fileName)
    {
      var turns := [turn] + rest;
      TurnsTail(turns, before, fileName);
      assert turns[1..] == rest;
      if turn.ContentTurn? {
        dropped', gone' := TakeContentTurn(turn.path, rest, table, fileName, dropped, before, gone);
      } else {
        ghost var cur := View();
        assert turn in [turn] + rest;
        OtherTurnTaken(cur, turn, rest);
        if turn.ArtifactTurn? {
          ArtifactTurnConserves(before, cur, gone, dropped, turn.path);
          artifacts := Filter(artifacts, (a: ArtifactEntry) => a.path != turn.path);
          dropped' := AddReferences(dropped, [ArtifactReference(turn.path)]);
          gone' := gone.(artifacts := gone.artifacts + {turn.path});
        } else {
          JobTurnConserves(before, cur, gone, dropped, turn.jobId);
          jobs := Filter(jobs, (j: JobEntry) => j.jobId != turn.jobId);
          dropped' := AddReferences(dropped, [JobReference(turn.jobId)]);
          gone' := gone.(jobs := gone.jobs + {turn.jobId});
        }
        if Intact(cur, gone, table, fileName) { FewerIntact(cur, View(), gone, gone', table, fileName); }
      }
    }

    method TakeContentTurn(path: string, rest: seq<Turn>, table: Dependents, fileName: string -> string,
        dropped: seq<Reference>, ghost before: Snapshot, ghost gone: Gone)
      returns (dropped': seq<Reference>, ghost gone': Gone)
      requires Conserved(before, View(), gone, dropped)
      requires Ordered([ContentTurn(path)] + rest, fileName) && Covers([ContentTurn(path)] + rest, View())
      modifies this`contents
      ensures (View(), dropped') == DropTurn(old(View()), dropped, ContentTurn(path), table)
      ensures Conserved(before, View(), gone', dropped') && Covers(rest, View())
      ensures old(Intact(View(), gone, table, fileName)) ==> Intact(View(), gone', table, fileName)
    {
      ghost var cur := View();
      ContentTurnConserves(before, cur, gone, dropped, table, path);
      DropContentCovered(cur.contents, table, path, rest);
      if Intact(cur, gone, table, fileName) {
        ContentTurnIntact(cur, gone, table, path, rest, fileName);
      }
      OtherTurnsStay(ContentTurn(path), rest, cur);
      var removed := DropContentEntry(table, path);
      dropped' := AddReferences(dropped, Map(removed, ReferenceOf));
      gone' := gone.(contents := gone.contents + removed);
    }

    method TakeNext(left: seq<Turn>, table: Dependents, fileName: string -> string, dropped: seq<Reference>,
        ghost before: Snapshot, ghost turns: seq<Turn>, ghost k: nat, ghost size: Snapshot -> nat, ghost budget: nat,
        ghost gone: Gone)
      returns (dropped': seq<Reference>, ghost gone': Gone)
      requires k < |turns| && left == turns[k..]
      requires Underway(before, turns, k, table, size, budget, fileName, View(), dropped, gone)
      requires size(Provisional(View(), dropped)) > budget
      modifies this`jobs, this`artifacts, this`contents
      ensures (View(), dropped') == DropTurn(old(View()), dropped, turns[k], table)
      ensures Underway(before, turns, k + 1, table, size, budget, fileName, View(), dropped', gone')
    {
      assert left == [left[0]] + left[1..];
      TrimmingNext(before, turns, k, table, size, budget, View(), dropped);
      dropped', gone' := TakeTurn(left[0], left[1..], table, fileName, dropped, before, gone);
    }

    /**
     The trimming loop. `turns` are the candidates in order; the size of a snapshot is whatever the
     production serialization makes of it.
     */
    method Trim(turns: seq<Turn>, table: Dependents, size: Snapshot -> nat, budget: nat, fileName: string -> string)
      returns (dropped: seq<Reference>, ghost gone: Gone, ghost taken: nat)
      requires note == None && Ordered(turns, fileName) && Covers(turns, View()) && Known(turns, View())
      modifies this`jobs, this`artifacts, this`contents
      ensures TookLeast(old(View()), turns, taken, table, size, budget)
      ensures (View(), dropped) == DropTurns(old(View()), turns[..taken], table)
      ensures Conserved(old(View()), View(), gone, dropped)
      ensures Intact(old(View()), NOTHING_GONE, table, fileName) ==> Intact(View(), gone, table, fileName)
      ensures
        || size(Provisional(View(), dropped)) <= budget
        || (jobs == [] && artifacts == [] && contents == [])
    {
      ghost var before := View();
      var left := turns;
      dropped, gone, taken := [], NOTHING_GONE, 0;
      NothingGoneYet(before);
      while left != []
        invariant note == None && taken <= |turns| && left == turns[taken..]
        invariant Underway(before, turns, taken, table, size, budget, fileName, View(), dropped, gone)
        decreases |left|
      {
        var provisional := Snapshot(jobs, artifacts, contents,
          if dropped == [] then None else Some(TruncationNote(dropped)));
        if size(provisional) <= budget {
          break;
        }
        dropped, gone := TakeNext(left, table, fileName, dropped, before, turns, taken, size, budget, gone);
        left, taken := left[1..], taken + 1;
      }
      TrimmingStops(before, turns, taken, table, size, budget, View(), dropped);
      if left == [] {
        TrimmingEnds(before, turns, taken, table, size, budget, View(), dropped);
        NothingLeft(View());
      }
    }

    /** The truncation note, shortened until the snapshot fits or the note is down to its counts. */
    method AddNote(dropped: seq<Reference>, size: Snapshot -> nat, budget: nat)
      requires dropped != []
      modifies this`note
      ensures note.Some? && Accounts(note.value, dropped)
      ensures size(View()) <= budget || note == Some(Note([], |dropped|, Some(|dropped|)))
      ensures size(old(View()).(note := Some(TruncationNote(dropped)))) <= budget ==>
        note == Some(TruncationNote(dropped))
      // a list that is shorter than it could be is half of one with which the snapshot did not fit
      ensures |note.value.omitted| < 25 && |note.value.omitted| < |dropped| ==>
        exists n: nat :: |note.value.omitted| < n <= |dropped| && n <= 25 && |note.value.omitted| == n / 2
          && size(old(View()).(note := Some(NoteListing(dropped, n)))) > budget
    {
      note := Some(TruncationNote(dropped));
      TruncationLists(dropped);
      while note.value.omitted != [] && size(Snapshot(jobs, artifacts, contents, note)) > budget
        invariant note.Some? && Accounts(note.value, dropped)
        invariant
          || note == Some(TruncationNote(dropped))
          || size(old(View()).(note := Some(TruncationNote(dropped)))) > budget
        invariant note == Some(NoteListing(dropped, |note.value.omitted|))
        invariant |note.value.omitted| == 25 || |note.value.omitted| == |dropped| ||
          exists n: nat :: |note.value.omitted| < n <= |dropped| && n <= 25 && |note.value.omitted| == n / 2
            && size(old(View()).(note := Some(NoteListing(dropped, n)))) > budget
        decreases |note.value.omitted|
      {
        var half := note.value.omitted[..|note.value.omitted| / 2];
        assert half == dropped[..|half|];
        var more := note.value.more;
        if |half| < note.value.count {
          more := Some(note.value.count - |half|);
        }
        note := Some(Note(half, note.value.count, more));
      }
    }
  }

  lemma {:induction false} TakeEachSnoc(contents: seq<ContentEntry>, paths: seq<string>, last: string)
    ensures var done := TakeEach(contents, paths); var next := TakeFirst(done.0, last);
      TakeEach(contents, paths + [last]) == (next.0, done.1 + next.1)
    decreases |paths|
  {
    if paths == [] {
      var first := TakeFirst(contents, last);
      assert paths + [last] == [last] && [last][1..] == paths;
      assert TakeEach(contents, [last]) == (first.0, first.1 + []);
      assert first.1 + [] == first.1 && [] + first.1 == first.1;
    } else {
      var first := TakeFirst(contents, paths[0]);
      var more := paths + [last];
      assert more[0] == paths[0] && more[1..] == paths[1..] + [last];
      TakeEachSnoc(first.0, paths[1..], last);
      var rest := TakeEach(first.0, paths[1..]);
      var next := TakeFirst(rest.0, last);
      assert first.1 + (rest.1 + next.1) == (first.1 + rest.1) + next.1;
      assert TakeEach(contents, more) == (next.0, first.1 + (rest.1 + next.1));
    }
  }

  lemma NothingLeft(s: Snapshot)
    requires Covers([], s)
    ensures s.jobs == [] && s.artifacts == [] && s.contents == []
  {
    forall a: ArtifactEntry ensures a !in s.artifacts {
    }
    NoMembers(s.artifacts);
    forall j: JobEntry ensures j !in s.jobs {
    }
    NoMembers(s.jobs);
    EmptyBag(Map(s.contents, TurnOf), []);
  }

  lemma EmptyBag<T>(s: seq<T>, t: seq<T>)
    requires multiset(s) <= multiset(t) && t == []
    ensures s == []
  {
    assert multiset(t) == multiset{};
    FirstInBag(s);
  }

  lemma FirstInBag<T>(s: seq<T>)
    ensures s != [] ==> s[0] in multiset(s)
  {
  }

  /** Only the counts: what is left of the note when no reference fits. */
  function CountOnlyNote(n: nat): Note { Note([], n, Some(n)) }

  /** The snapshot before trimming shows the visible artifacts, every one of them, and their excerpts. */
  ghost predicate Gathered(s: Snapshot, jobs: seq<JobEntry>, records: seq<ArtifactRecord>, phase: Phase,
      read: ArtifactRecord -> Excerpt, project: ArtifactRecord -> string, fileName: string -> string)
  {
    exists newest :: IsNewest(newest, records, fileName) &&
      ShowsAll(s, jobs, Filter(records, ShownTo(newest, PhaseFilenames(phase), fileName)), read, project)
  }

  ghost predicate ShowsAll(s: Snapshot, jobs: seq<JobEntry>, visible: seq<ArtifactRecord>,
      read: ArtifactRecord -> Excerpt, project: ArtifactRecord -> string)
  {
    && s.jobs == jobs && s.note == None
    && |s.artifacts| == |visible|
    && (forall i :: 0 <= i < |visible| ==> s.artifacts[i] == ArtifactEntry(visible[i].path, project(visible[i])))
    && Excerpted(s.contents, Filter(visible, HasExcerpt(read)), read)
  }

  method GatherSnapshot(jobs: seq<JobEntry>, records: seq<ArtifactRecord>, phase: Phase,
      read: ArtifactRecord -> Excerpt, project: ArtifactRecord -> string, fileName: string -> string)
    returns (s: Snapshot, table: Dependents)
    ensures Gathered(s, jobs, records, phase, read, project, fileName) && TableFor(table, s.contents) && s.note == None
    ensures forall c :: c in s.contents ==> InSomeTier(fileName(c.path))
    ensures NoDuplicates(Paths(records)) ==> Intact(s, NOTHING_GONE, table, fileName)
  {
    var allowed := PhaseFilenames(phase);
    var visible, newest := VisibleArtifacts(records, allowed, fileName);
    var artifacts := Map(visible, (a: ArtifactRecord) => ArtifactEntry(a.path, project(a)));
    var contents, table' := CollectContents(visible, read);
    s, table := Snapshot(jobs, artifacts, contents, None), table';
    assert ShowsAll(s, jobs, visible, read, project);
    VisiblePaths(records, ShownTo(newest, allowed, fileName));
    forall c | c in contents ensures InSomeTier(fileName(c.path)) {
      var i :| 0 <= i < |visible| && Paths(visible)[i] == c.path;
      assert visible[i] in visible && ShownTo(newest, allowed, fileName)(visible[i]);
      PhaseNamesHaveTiers(phase, fileName(c.path));
    }
  }

  /** Everything has been dropped and the note, if there is one, is down to its counts. */
  function Floor(n: nat): Snapshot { Snapshot([], [], [], if n == 0 then None else Some(CountOnlyNote(n))) }

  ghost predicate IsFloor(s: Snapshot, n: nat) { s == Floor(n) }

  /** Everything there is to drop. */
  ghost predicate Named(s: Snapshot, r: Reference) {
    match r
    case ArtifactReference(p) =>
      (exists c :: c in s.contents && c.path == p) || exists a :: a in s.artifacts && a.path == p
    case JobReference(i) => exists j :: j in s.jobs && j.jobId == i
  }

  function NameList(s: Snapshot): seq<Reference> {
    Map(s.contents, ReferenceOf) + Map(s.artifacts, (a: ArtifactEntry) => ArtifactReference(a.path)) +
    Map(s.jobs, (j: JobEntry) => JobReference(j.jobId))
  }

  ghost function Names(s: Snapshot): set<Reference> { set r | r in NameList(s) }

  lemma NamesAre(s: Snapshot, r: Reference)
    ensures r in Names(s) <==> Named(s, r)
  {
    match r
    case ArtifactReference(p) =>
      forall c | c in s.contents && c.path == p ensures r in NameList(s) {
        assert r in Map(s.contents, ReferenceOf) by { InMap(s.contents, ReferenceOf, c); }
      }
      forall a | a in s.artifacts && a.path == p ensures r in NameList(s) {
        InMap(s.artifacts, (a: ArtifactEntry) => ArtifactReference(a.path), a);
      }
    case JobReference(i) =>
      forall j | j in s.jobs && j.jobId == i ensures r in NameList(s) {
        InMap(s.jobs, (j: JobEntry) => JobReference(j.jobId), j);
      }
  }

  lemma InMap<T, U>(s: seq<T>, f: T -> U, x: T)
    requires x in s
    ensures f(x) in Map(s, f)
  {
    var i :| 0 <= i < |s| && s[i] == x;
    assert Map(s, f)[i] == f(x);
  }

  /** Of a snapshot that has become empty every name has been recorded, once. */
  lemma AllNamesDropped(before: Snapshot, cur: Snapshot, gone: Gone, dropped: seq<Reference>)
    requires Conserved(before, cur, gone, dropped)
    requires cur.contents == [] && cur.artifacts == [] && cur.jobs == []
    ensures |dropped| == |Names(before)|
  {
    forall r ensures r in dropped <==> r in Names(before) {
      NamesAre(before, r);
      match r
      case ArtifactReference(p) =>
        ContentsGone(before, cur, gone);
        ArtifactsGone(before, cur, gone, p);
      case JobReference(i) => JobsGone(before, cur, gone, i);
    }
    DistinctSize(dropped);
    assert (set r | r in dropped) == Names(before);
  }

  lemma ContentsGone(before: Snapshot, cur: Snapshot, gone: Gone)
    requires Partitioned(before, cur, gone) && cur.contents == []
    ensures forall c :: c in gone.contents <==> c in before.contents
  {
    assert multiset(before.contents) == multiset(gone.contents);
    forall c ensures c in gone.contents <==> c in before.contents {
      assert c in gone.contents <==> c in multiset(gone.contents);
      assert c in before.contents <==> c in multiset(before.contents);
    }
  }

  lemma ArtifactsGone(before: Snapshot, cur: Snapshot, gone: Gone, p: string)
    requires KeptOthers(before, cur, gone) && cur.artifacts == []
    ensures p in gone.artifacts <==> exists a :: a in before.artifacts && a.path == p
  {
    forall a | a in before.artifacts ensures a.path in gone.artifacts {
      assert a !in Filter(before.artifacts, (a: ArtifactEntry) => a.path !in gone.artifacts);
    }
  }

  lemma JobsGone(before: Snapshot, cur: Snapshot, gone: Gone, i: string)
    requires KeptOthers(before, cur, gone) && cur.jobs == []
    ensures i in gone.jobs <==> exists j :: j in before.jobs && j.jobId == i
  {
    forall j | j in before.jobs ensures j.jobId in gone.jobs {
      assert j !in Filter(before.jobs, (j: JobEntry) => j.jobId !in gone.jobs);
    }
  }

  /**
   `snapshot` is `before` less the first `taken` candidates, the fewest that make it fit: `gone` is
   exactly what is missing and what the note accounts for, the budget is kept unless nothing but the
   counts is left, and with distinct paths no reference dangles and evaluator output went last.
   */
  ghost predicate TrimmedFrom(before: Snapshot, taken: nat, table: Dependents, gone: Gone, snapshot: Snapshot,
      size: Snapshot -> nat, budget: nat, fileName: string -> string, distinct: bool)
  {
    var turns := DropCandidates(before, fileName);
    && TableFor(table, before.contents) && TookLeast(before, turns, taken, table, size, budget)
    && var dropped := DropTurns(before, turns[..taken], table).1;
    && snapshot.(note := None) == DropTurns(before, turns[..taken], table).0
    && Conserved(before, snapshot.(note := None), gone, dropped)
    && (if dropped == [] then snapshot.note == None else snapshot.note.Some? && Accounts(snapshot.note.value, dropped))
    && (size(snapshot) <= budget || IsFloor(snapshot, |dropped|))
    && (distinct ==> NoDangling(snapshot.contents) && VerbatimLast(snapshot, gone, fileName))
  }

  ghost predicate Trimmed(before: Snapshot, snapshot: Snapshot, size: Snapshot -> nat, budget: nat,
      fileName: string -> string, distinct: bool)
  {
    exists taken: nat, table, gone ::
      TrimmedFrom(before, taken, table, gone, snapshot, size, budget, fileName, distinct)
  }

  /** build_evidence_snapshot: the gathered snapshot, trimmed to the budget. */
  method BuildEvidenceSnapshot(jobs: seq<JobEntry>, records: seq<ArtifactRecord>, phase: Phase,
      read: ArtifactRecord -> Excerpt, project: ArtifactRecord -> string, fileName: string -> string,
      size: Snapshot -> nat, maxBytes: nat, defaultBytes: nat)
    returns (snapshot: Snapshot)
    ensures exists before ::
      && Gathered(before, jobs, records, phase, read, project, fileName)
      && Trimmed(before, snapshot, size, if maxBytes != 0 then maxBytes else defaultBytes, fileName,
        NoDuplicates(Paths(records)))
  {
    var budget := if maxBytes != 0 then maxBytes else defaultBytes;
    var start, table := GatherSnapshot(jobs, records, phase, read, project, fileName);
    snapshot := TrimSnapshot(start, table, size, budget, fileName, NoDuplicates(Paths(records)));
    assert Gathered(start, jobs, records, phase, read, project, fileName);
  }

  /** The part of build_evidence_snapshot after everything has been gathered. */
  method TrimSnapshot(start: Snapshot, table: Dependents, size: Snapshot -> nat, budget: nat,
      fileName: string -> string, ghost distinct: bool)
    returns (snapshot: Snapshot)
    requires start.note == None && TableFor(table, start.contents)
    requires forall c :: c in start.contents ==> InSomeTier(fileName(c.path))
    requires distinct ==> Intact(start, NOTHING_GONE, table, fileName)
    ensures Trimmed(start, snapshot, size, budget, fileName, distinct)
  {
    CandidatesCover(start, fileName);
    CandidatesOrdered(start, fileName);
    var s := new EvidenceSnapshot(start.jobs, start.artifacts, start.contents);
    var dropped;
    ghost var gone: Gone, taken: nat;
    dropped, gone, taken := s.Trim(DropCandidates(start, fileName), table, size, budget, fileName);
    ghost var trimmed := s.View();
    if dropped != [] {
      s.AddNote(dropped, size, budget);
    }
    snapshot := Snapshot(s.jobs, s.artifacts, s.contents, s.note);
    NoteAdded(trimmed, snapshot, gone, table, fileName);
    assert TrimmedFrom(start, taken, table, gone, snapshot, size, budget, fileName, distinct);
  }

  lemma NoteAdded(trimmed: Snapshot, snapshot: Snapshot, gone: Gone, table: Dependents, fileName: string -> string)
    requires trimmed.note == None && snapshot == trimmed.(note := snapshot.note)
    ensures snapshot.(note := None) == trimmed
    ensures Intact(trimmed, gone, table, fileName) ==>
      NoDangling(snapshot.contents) && VerbatimLast(snapshot, gone, fileName)
  {
  }

  /** The only result over the budget is the empty snapshot with a note that counts everything there was. */
  lemma OverBudgetIsFloor(before: Snapshot, snapshot: Snapshot, size: Snapshot -> nat, budget: nat,
      fileName: string -> string, distinct: bool)
    requires Trimmed(before, snapshot, size, budget, fileName, distinct)
    ensures size(snapshot) <= budget || snapshot == Floor(|Names(before)|)
  {
    var taken: nat, table, gone :|
      TrimmedFrom(before, taken, table, gone, snapshot, size, budget, fileName, distinct);
    var dropped := DropTurns(before, DropCandidates(before, fileName)[..taken], table).1;
    if IsFloor(snapshot, |dropped|) { AllNamesDropped(before, snapshot.(note := None), gone, dropped); }
  }

  lemma {:induction false} MembersBounded<T(!new)>(members: set<T>, s: seq<T>)
    requires forall x :: x in members ==> x in s
    ensures |members| <= |s|
  {
    if s == [] {
      assert members == {};
    } else {
      assert s == [s[0]] + s[1..];
      MembersBounded(members - {s[0]}, s[1..]);
      assert members <= members - {s[0]} + {s[0]};
    }
  }

  /** There is no more to drop than there are jobs and artifacts. */
  lemma NamesBounded(s: Snapshot, jobs: seq<JobEntry>, records: seq<ArtifactRecord>, phase: Phase,
      read: ArtifactRecord -> Excerpt, project: ArtifactRecord -> string, fileName: string -> string)
    requires Gathered(s, jobs, records, phase, read, project, fileName)
    ensures |Names(s)| <= |jobs| + |records|
  {
    var newest :| IsNewest(newest, records, fileName) &&
      ShowsAll(s, jobs, Filter(records, ShownTo(newest, PhaseFilenames(phase), fileName)), read, project);
    var visible := Filter(records, ShownTo(newest, PhaseFilenames(phase), fileName));
    EntriesShown(s, jobs, visible, read, project);
    NamesCounted(s);
  }

  lemma NamesCounted(s: Snapshot)
    requires forall c :: c in s.contents ==> exists a :: a in s.artifacts && a.path == c.path
    ensures |Names(s)| <= |s.artifacts| + |s.jobs|
  {
    var bare := s.(contents := []);
    forall r | r in Names(s) ensures r in NameList(bare) {
      NamesAre(s, r);
      NamesAre(bare, r);
      assert Named(bare, r);
    }
    MembersBounded(Names(s), NameList(bare));
  }

  lemma EntriesShown(s: Snapshot, jobs: seq<JobEntry>, visible: seq<ArtifactRecord>,
      read: ArtifactRecord -> Excerpt, project: ArtifactRecord -> string)
    requires ShowsAll(s, jobs, visible, read, project)
    ensures forall c :: c in s.contents ==> exists a :: a in s.artifacts && a.path == c.path
  {
    var rs := Filter(visible, HasExcerpt(read));
    forall c | c in s.contents ensures exists a :: a in s.artifacts && a.path == c.path {
      var k :| 0 <= k < |s.contents| && s.contents[k] == c;
      assert EntryFor(s.contents[k], rs, read, k);
      assert rs[k] in visible;
      var i :| 0 <= i < |visible| && visible[i] == rs[k];
      assert s.artifacts[i].path == c.path;
    }
  }

  /**
   The hard bound: a budget that the empty snapshot fits, with a note that counts what was dropped,
   is never exceeded. There are at most as many to count as jobs and artifacts.
   */
  lemma BudgetHolds(before: Snapshot, snapshot: Snapshot, jobs: seq<JobEntry>, records: seq<ArtifactRecord>,
      phase: Phase, read: ArtifactRecord -> Excerpt, project: ArtifactRecord -> string, fileName: string -> string,
      size: Snapshot -> nat, budget: nat, distinct: bool)
    requires Gathered(before, jobs, records, phase, read, project, fileName)
    requires Trimmed(before, snapshot, size, budget, fileName, distinct)
    requires forall n: nat :: n <= |jobs| + |records| ==> size(Floor(n)) <= budget
    ensures size(snapshot) <= budget
  {
    NamesBounded(before, jobs, records, phase, read, project, fileName);
    OverBudgetIsFloor(before, snapshot, size, budget, fileName, distinct);
  }

  lemma VisiblePaths(records: seq<ArtifactRecord>, shown: ArtifactRecord -> bool)
    ensures NoDuplicates(Paths(records)) ==> NoDuplicates(Paths(Filter(records, shown)))
  {
    if NoDuplicates(Paths(records)) { FilteredPaths(records, shown); }
  }

  lemma {:induction false} FilteredPaths(records: seq<ArtifactRecord>, shown: ArtifactRecord -> bool)
    requires NoDuplicates(Paths(records))
    ensures NoDuplicates(Paths(Filter(records, shown)))
  {
    if records != [] {
      var rest := records[1..];
      assert forall i :: 0 <= i < |rest| ==> Paths(rest)[i] == Paths(records)[i + 1];
      FilteredPaths(rest, shown);
      var kept := Filter(rest, shown);
      forall i | 0 <= i < |kept| ensures kept[i].path != records[0].path {
        assert kept[i] in rest;
        var k :| 0 <= k < |rest| && rest[k] == kept[i];
        assert Paths(records)[k + 1] != Paths(records)[0];
      }
    }
  }
}
