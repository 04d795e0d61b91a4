/**
 Building a backup archive of an encrypted vault and accepting one for restore
 (secret_backup_restore.py, create_backup, _preflight_archive and _validate_extracted_archive).
 A refusal of any kind is `None`.
 */
module VaultArchive {
  import opened Wrappers
  import opened Order
  import opened Lists
  import opened PosixPath
  import opened ChecksumDocument
  import Text

  /** A directory or an archive by the relative names of its regular files. */
  type Files = map<string, Bytes>

  const MAX_METADATA_BYTES := 4 * 1024 * 1024
  const MAX_ARCHIVE_BYTES := 512 * 1024 * 1024
  const MAX_MEMBERS := 10000

  /**
   The names the archive uses, the test of relative paths, the printing and parsing of the checksum
   document, and what is decided elsewhere: SHA-256, the paths in an inventory document, and the
   validity of a policy and of an encrypted document under it.
   */
  datatype Setting = Setting(
    checksum: string,
    inventory: string,
    policy: string,
    top: string,
    local: string,
    suffix: string,
    safe: string -> bool,
    document: Files -> Option<Bytes>,
    parse: Bytes -> Option<Checksums>,
    sha: Bytes -> string,
    records: Bytes -> Option<seq<string>>,
    policyOk: Bytes -> bool,
    sopsOk: (Bytes, string, Bytes) -> bool)

  function InVault(w: Setting, path: string): string { w.top + "/" + path }

  /** _safe_relative_path. */
  predicate SafeRelative(path: string) {
    path != "" && '\\' !in path && path[0] != '/' && ".." !in PathParts(path) && Normalize(path) == path
  }

  /** What the proofs use of the fixed names and the path test; `StandardSetting` shows it of the program's own. */
  ghost predicate NamesOk(w: Setting) {
    && w.checksum != w.inventory && w.checksum != w.policy && w.inventory != w.policy
    && w.inventory == InVault(w, w.local)
    && !(w.top + "/" <= w.checksum) && !(w.top + "/" <= w.policy)
    && !Text.EndsWith(w.local, w.suffix)
    && w.safe(w.checksum) && w.safe(w.inventory) && w.safe(w.policy)
    && (forall p {:trigger InVault(w, p)} :: w.safe(p) && Text.EndsWith(p, w.suffix) ==> w.safe(InVault(w, p)))
    && LineSafe(w.inventory) && LineSafe(w.policy)
  }

  ghost predicate Lawful(w: Setting) { NamesOk(w) && Documents(w) && forall b :: HexDigest(w.sha(b)) }

  /** The checksum document is printed and parsed as ChecksumDocument says. */
  ghost predicate Documents(w: Setting) {
    && (forall files :: w.document(files) == ChecksumBytes(w, files))
    && (forall b :: w.parse(b) == ParseDocument(b, w.checksum, w.safe))
  }

  predicate Readable(b: Bytes) { |b| <= MAX_METADATA_BYTES }

  /** _load_inventory_bytes, as far as paths go. */
  function LoadInventory(w: Setting, b: Bytes): Option<seq<string>> {
    match w.records(b)
    case None => None
    case Some(paths) => if PathsOk(w, paths) then Some(paths) else None
  }

  predicate PathsOk(w: Setting, paths: seq<string>) {
    && paths != []
    && (forall i :: 0 <= i < |paths| ==> w.safe(paths[i]) && Text.EndsWith(paths[i], w.suffix))
    && (forall i, j :: 0 <= i < j < |paths| ==> paths[i] != paths[j])
  }

  function VaultNames(w: Setting, paths: seq<string>): set<string> { set p | p in paths :: InVault(w, p) }

  /** Every member of an archive of these documents. */
  function ExpectedMembers(w: Setting, paths: seq<string>): set<string> {
    {w.checksum, w.inventory, w.policy} + VaultNames(w, paths)
  }

  predicate DocumentsOk(w: Setting, paths: seq<string>, policy: Bytes, document: string -> Option<Bytes>) {
    forall i :: 0 <= i < |paths| ==>
      var d := document(paths[i]);
      d.Some? && Readable(d.value) && w.sopsOk(policy, paths[i], d.value)
  }

  // ---------------------------------------------------------------------------
  // Backup
  // ---------------------------------------------------------------------------

  function Discovered(w: Setting, vault: Files): set<string> { set p | p in vault && Text.EndsWith(p, w.suffix) }

  function Lookup(files: Files): string -> Option<Bytes> {
    (name: string) => if name in files then Some(files[name]) else None
  }

  /** Everything but the checksum document, as the loop over the records collects it. */
  function BaseFiles(w: Setting, vault: Files, policy: Bytes, paths: seq<string>): Files
    requires w.local in vault && forall p :: p in paths ==> p in vault
  {
    if paths == [] then map[w.inventory := vault[w.local], w.policy := policy]
    else
      var before, last := paths[..|paths| - 1], paths[|paths| - 1];
      BaseFiles(w, vault, policy, before)[InVault(w, last) := vault[last]]
  }

  function DigestIn(w: Setting, files: Files): string -> string {
    (name: string) => w.sha(if name in files then files[name] else [])
  }

  /** `_checksum_document(files)`, which fails on a name that is not ASCII. */
  ghost function ChecksumBytes(w: Setting, files: Files): Option<Bytes> {
    var text := PrintText(SortedNames(files.Keys), DigestIn(w, files));
    if Ascii(text) then Some(EncodeAscii(text)) else None
  }

  predicate AllSafe(w: Setting, paths: set<string>) { forall p :: p in paths ==> w.safe(p) }

  predicate VaultOk(w: Setting, vault: Files, policy: Bytes, paths: seq<string>) {
    && AllSafe(w, Discovered(w, vault)) && (set p | p in paths) == Discovered(w, vault)
    && Readable(policy) && w.policyOk(policy)
    && DocumentsOk(w, paths, policy, Lookup(vault))
  }

  /** The paths of the documents to archive, once everything has been checked. */
  function CheckedPaths(w: Setting, vault: Files, policy: Bytes): (r: Option<seq<string>>)
    ensures r.Some? ==> w.local in vault && forall p :: p in r.value ==> p in vault
  {
    if w.local !in vault || !Readable(vault[w.local]) then None
    else
      match LoadInventory(w, vault[w.local])
      case None => None
      case Some(paths) =>
        if VaultOk(w, vault, policy, paths) then
          PathsInVault(w, vault, policy, paths);
          Some(paths)
        else None
  }

  lemma PathsInVault(w: Setting, vault: Files, policy: Bytes, paths: seq<string>)
    requires VaultOk(w, vault, policy, paths)
    ensures forall p :: p in paths ==> p in vault
  {
    forall p | p in paths ensures p in vault { assert p in set q | q in paths; }
  }

  /** The file map that create_backup writes. */
  function CreateBackup(w: Setting, vault: Files, policy: Bytes): Option<Files> {
    match CheckedPaths(w, vault, policy)
    case None => None
    case Some(paths) =>
      var files := BaseFiles(w, vault, policy, paths);
      match w.document(files)
      case None => None
      case Some(document) => Some(files[w.checksum := document])
  }

  method Backup(w: Setting, vault: Files, policy: Bytes) returns (r: Option<Files>)
    requires Documents(w)
    ensures r == CreateBackup(w, vault, policy)
  {
    var paths := CheckedPaths(w, vault, policy);
    if paths.None? {
      return None;
    }
    var files := CollectFiles(w, vault, policy, paths.value);
    var document := BuildChecksums(w, files);
    if document.None? {
      return None;
    }
    r := Some(files[w.checksum := document.value]);
  }

  /** _checksum_document. */
  method BuildChecksums(w: Setting, files: Files) returns (r: Option<Bytes>)
    requires Documents(w)
    ensures r == w.document(files)
  {
    var names := SortSet(files.Keys);
    var text := PrintText(names, DigestIn(w, files));
    r := if Ascii(text) then Some(EncodeAscii(text)) else None;
  }

  method CollectFiles(w: Setting, vault: Files, policy: Bytes, paths: seq<string>) returns (files: Files)
    requires w.local in vault && forall p :: p in paths ==> p in vault
    ensures files == BaseFiles(w, vault, policy, paths)
  {
    files := map[w.inventory := vault[w.local], w.policy := policy];
    for i := 0 to |paths|
      invariant files == BaseFiles(w, vault, policy, paths[..i])
    {
      assert paths[..i + 1][..i] == paths[..i];
      files := files[InVault(w, paths[i]) := vault[paths[i]]];
    }
    assert paths[..|paths|] == paths;
  }

  lemma InVaultParts(w: Setting, path: string)
    ensures w.top + "/" <= InVault(w, path) && InVault(w, path)[|w.top| + 1..] == path
  {
  }

  lemma InVaultDistinct(w: Setting, path: string)
    requires NamesOk(w) && Text.EndsWith(path, w.suffix)
    ensures InVault(w, path) != w.checksum && InVault(w, path) != w.inventory && InVault(w, path) != w.policy
  {
    InVaultParts(w, path);
    InVaultParts(w, w.local);
  }

  /** What the collected files are, name by name. */
  ghost predicate Collected(w: Setting, vault: Files, policy: Bytes, paths: seq<string>, files: Files)
    requires w.local in vault && forall p :: p in paths ==> p in vault
  {
    && files.Keys == {w.inventory, w.policy} + VaultNames(w, paths)
    && files[w.inventory] == vault[w.local] && files[w.policy] == policy
    && forall p :: p in paths ==> InVault(w, p) in files && files[InVault(w, p)] == vault[p]
  }

  lemma CollectedNext(w: Setting, vault: Files, policy: Bytes, before: seq<string>, last: string, files: Files)
    requires w.local in vault && (forall p :: p in before ==> p in vault) && last in vault
    requires Collected(w, vault, policy, before, files)
    requires InVault(w, last) != w.inventory && InVault(w, last) != w.policy
    ensures Collected(w, vault, policy, before + [last], files[InVault(w, last) := vault[last]])
  {
    assert VaultNames(w, before + [last]) == VaultNames(w, before) + {InVault(w, last)};
    forall p | p in before && InVault(w, p) == InVault(w, last) ensures p == last {
      InVaultParts(w, p);
      InVaultParts(w, last);
    }
  }

  lemma {:induction false} BaseCollected(w: Setting, vault: Files, policy: Bytes, paths: seq<string>)
    requires NamesOk(w) && w.local in vault && (forall p :: p in paths ==> p in vault)
    requires forall i :: 0 <= i < |paths| ==> Text.EndsWith(paths[i], w.suffix)
    ensures Collected(w, vault, policy, paths, BaseFiles(w, vault, policy, paths))
  {
    if paths == [] {
      assert VaultNames(w, paths) == {};
    } else {
      var before, last := paths[..|paths| - 1], paths[|paths| - 1];
      BaseCollected(w, vault, policy, before);
      InVaultDistinct(w, last);
      assert paths == before + [last];
      CollectedNext(w, vault, policy, before, last, BaseFiles(w, vault, policy, before));
    }
  }

  // ---------------------------------------------------------------------------
  // Preflight
  // ---------------------------------------------------------------------------

  datatype Member = Member(name: string, size: int, regular: bool)

  predicate Allowed(w: Setting, name: string) {
    || name == w.checksum || name == w.inventory || name == w.policy
    || (w.top + "/" <= name && Text.EndsWith(name, w.suffix))
  }

  function Total(members: seq<Member>): int {
    if members == [] then 0 else Total(members[..|members| - 1]) + members[|members| - 1].size
  }

  predicate MemberOk(w: Setting, m: Member) { w.safe(m.name) && m.regular && Allowed(w, m.name) && m.size >= 0 }

  function MemberNames(members: seq<Member>): set<string> { set m | m in members :: m.name }

  function MemberCheck(w: Setting): Member -> bool { (m: Member) => MemberOk(w, m) }

  ghost predicate MembersOk(check: Member -> bool, members: seq<Member>) {
    && (forall i :: 0 <= i < |members| ==> check(members[i]))
    && (forall i, j :: 0 <= i < j < |members| ==> members[i].name != members[j].name)
    && Total(members) <= MAX_ARCHIVE_BYTES
  }

  ghost predicate PreflightOk(w: Setting, members: seq<Member>) {
    && 0 < |members| <= MAX_MEMBERS && MembersOk(MemberCheck(w), members)
    && {w.checksum, w.inventory, w.policy} <= MemberNames(members)
  }

  /** _preflight_archive: the names of the members, if all of them may be extracted. */
  method Preflight(w: Setting, members: seq<Member>) returns (r: Option<set<string>>)
    ensures r.Some? <==> PreflightOk(w, members)
    ensures r.Some? ==> r.value == MemberNames(members)
  {
    if members == [] || |members| > MAX_MEMBERS {
      return None;
    }
    var names := ScanMembers(members, MemberCheck(w));
    if names.None? || !({w.checksum, w.inventory, w.policy} <= names.value) {
      return None;
    }
    r := names;
  }

  /** The loop over the members, which stops at the first that fails its check, repeats a name or is too much. */
  method ScanMembers(members: seq<Member>, check: Member -> bool) returns (r: Option<set<string>>)
    requires forall m :: check(m) ==> m.size >= 0
    ensures r.Some? <==> MembersOk(check, members)
    ensures r.Some? ==> r.value == MemberNames(members)
  {
    var names: set<string>, total := {}, 0;
    for i := 0 to |members|
      invariant names == MemberNames(members[..i]) && total == Total(members[..i])
      invariant MembersOk(check, members[..i])
    {
      var m := members[i];
      assert members[..i + 1] == members[..i] + [m];
      MembersSnoc(check, members[..i], m);
      if !check(m) || m.name in names || total + m.size > MAX_ARCHIVE_BYTES {
        MembersRefused(check, members, i + 1);
        return None;
      }
      names := names + {m.name};
      total := total + m.size;
    }
    assert members[..|members|] == members;
    r := Some(names);
  }

  lemma MembersSnoc(check: Member -> bool, before: seq<Member>, m: Member)
    requires MembersOk(check, before)
    ensures Total(before + [m]) == Total(before) + m.size
    ensures MemberNames(before + [m]) == MemberNames(before) + {m.name}
    ensures MembersOk(check, before + [m]) <==>
      check(m) && m.name !in MemberNames(before) && Total(before) + m.size <= MAX_ARCHIVE_BYTES
  {
    var all := before + [m];
    assert all[..|all| - 1] == before && all[|all| - 1] == m;
    NameIsNewIff(before, m);
    if MembersOk(check, all) {
      assert forall i :: 0 <= i < |before| ==> all[i].name != all[|before|].name;
    }
  }

  lemma NameIsNewIff(before: seq<Member>, m: Member)
    ensures m.name !in MemberNames(before) <==> forall i :: 0 <= i < |before| ==> before[i].name != m.name
  {
    if m.name !in MemberNames(before) {
      forall i | 0 <= i < |before| ensures before[i].name != m.name { assert before[i] in before; }
    }
  }

  lemma {:induction false} TotalGrows(members: seq<Member>, n: nat)
    requires n <= |members| && forall i :: 0 <= i < |members| ==> members[i].size >= 0
    ensures Total(members[..n]) <= Total(members)
    decreases |members|
  {
    if n == |members| {
      assert members[..n] == members;
    } else {
      assert members[..|members| - 1][..n] == members[..n];
      TotalGrows(members[..|members| - 1], n);
    }
  }

  lemma MembersRefused(check: Member -> bool, members: seq<Member>, n: nat)
    requires n <= |members| && !MembersOk(check, members[..n]) && forall m :: check(m) ==> m.size >= 0
    ensures !MembersOk(check, members)
  {
    if MembersOk(check, members) {
      TotalGrows(members, n);
      forall i | 0 <= i < n ensures members[..n][i] == members[i] {
      }
    }
  }

  // ---------------------------------------------------------------------------
  // Validation of the extracted files
  // ---------------------------------------------------------------------------

  /** The vault directory of the workspace. */
  function VaultPart(w: Setting, files: Files): Files {
    map p | p in (set n | n in files && w.top + "/" <= n :: n[|w.top| + 1..]) && InVault(w, p) in files ::
      files[InVault(w, p)]
  }

  predicate ChecksumsMatch(w: Setting, files: Files, names: set<string>, checksums: Checksums) {
    forall n :: n in names ==> n in files && n in checksums && Readable(files[n]) && w.sha(files[n]) == checksums[n]
  }

  function DocumentIn(w: Setting, files: Files): string -> Option<Bytes> {
    (p: string) => if InVault(w, p) in files then Some(files[InVault(w, p)]) else None
  }

  /** Members, checksums and inventory coincide, and every document is valid. */
  predicate Coherent(w: Setting, files: Files, names: set<string>, paths: seq<string>, checksums: Checksums) {
    && names == ExpectedMembers(w, paths)
    && checksums.Keys == names - {w.checksum}
    && ChecksumsMatch(w, files, names - {w.checksum}, checksums)
    && w.policy in files && w.policyOk(files[w.policy])
    && DocumentsOk(w, paths, files[w.policy], DocumentIn(w, files))
  }

  function ValidateExtracted(w: Setting, files: Files, names: set<string>): Option<Files> {
    if files.Keys != names || w.inventory !in files || w.checksum !in files then None
    else if !Readable(files[w.inventory]) || !Readable(files[w.checksum]) then None
    else
      match (LoadInventory(w, files[w.inventory]), w.parse(files[w.checksum]))
      case (Some(paths), Some(checksums)) =>
        if Coherent(w, files, names, paths, checksums) then Some(VaultPart(w, files)) else None
      case _ => None
  }

  /** _validate_extracted_archive, check by check. */
  method Validate(w: Setting, files: Files, names: set<string>) returns (r: Option<Files>)
    requires NamesOk(w) && Documents(w)
    ensures r == ValidateExtracted(w, files, names)
  {
    if files.Keys != names || w.inventory !in files || !Readable(files[w.inventory]) {
      return None;
    }
    var inventory := LoadInventory(w, files[w.inventory]);
    if inventory.None? {
      return None;
    }
    var expected := ExpectedMembers(w, inventory.value);
    if names != expected {
      return None;
    }
    if !Readable(files[w.checksum]) {
      return None;
    }
    var checksums := ParseChecksums(files[w.checksum], w.checksum, w.safe);
    if checksums.None? || checksums.value.Keys != expected - {w.checksum} {
      return None;
    }
    var covered := AllMatch(w, files, expected - {w.checksum}, checksums.value);
    if !covered || !w.policyOk(files[w.policy]) {
      return None;
    }
    if !DocumentsOk(w, inventory.value, files[w.policy], DocumentIn(w, files)) {
      return None;
    }
    r := Some(VaultPart(w, files));
  }

  /** The comparison loop, in the order of the sorted names. */
  method AllMatch(w: Setting, files: Files, names: set<string>, checksums: Checksums) returns (ok: bool)
    requires names <= files.Keys && names <= checksums.Keys
    ensures ok <==> ChecksumsMatch(w, files, names, checksums)
  {
    var sorted := SortSet(names);
    SortedNamesAre(names);
    for i := 0 to |sorted|
      invariant forall k :: 0 <= k < i ==>
        Readable(files[sorted[k]]) && w.sha(files[sorted[k]]) == checksums[sorted[k]]
    {
      assert sorted[i] in names;
      if !Readable(files[sorted[i]]) || w.sha(files[sorted[i]]) != checksums[sorted[i]] {
        return false;
      }
    }
    forall n | n in names ensures Readable(files[n]) && w.sha(files[n]) == checksums[n] {
      var k :| 0 <= k < |sorted| && sorted[k] == n;
    }
    ok := true;
  }

  // ---------------------------------------------------------------------------
  // What is accepted
  // ---------------------------------------------------------------------------

  /** The vault directory of an archive of these documents holds the inventory and the documents. */
  lemma VaultPartIs(w: Setting, files: Files, paths: seq<string>)
    requires NamesOk(w) && files.Keys == ExpectedMembers(w, paths)
    ensures VaultPart(w, files).Keys == {w.local} + set p | p in paths
    ensures forall p :: p in VaultPart(w, files) ==> VaultPart(w, files)[p] == files[InVault(w, p)]
  {
    var part := VaultPart(w, files);
    forall p ensures p in part <==> InVault(w, p) in files {
      InVaultParts(w, p);
    }
    forall p ensures InVault(w, p) in files <==> p == w.local || p in paths {
      InVaultParts(w, p);
      if InVault(w, p) in VaultNames(w, paths) {
        var q :| q in paths && InVault(w, q) == InVault(w, p);
        InVaultParts(w, q);
      }
      InVaultParts(w, w.local);
    }
  }

  lemma ValidatedParts(w: Setting, files: Files, names: set<string>) returns (paths: seq<string>, checksums: Checksums)
    requires ValidateExtracted(w, files, names).Some?
    ensures files.Keys == names && w.inventory in files && w.checksum in files
    ensures LoadInventory(w, files[w.inventory]) == Some(paths) && w.parse(files[w.checksum]) == Some(checksums)
    ensures Coherent(w, files, names, paths, checksums)
    ensures ValidateExtracted(w, files, names).value == VaultPart(w, files)
  {
    paths := LoadInventory(w, files[w.inventory]).value;
    checksums := w.parse(files[w.checksum]).value;
  }

  lemma CoherentDocuments(w: Setting, files: Files, names: set<string>, paths: seq<string>, checksums: Checksums)
    requires Coherent(w, files, names, paths, checksums)
    ensures checksums.Keys == names - {w.checksum}
    ensures forall n :: n in checksums ==> n in files && checksums[n] == w.sha(files[n])
    ensures forall p :: p in paths ==> InVault(w, p) in files && w.sopsOk(files[w.policy], p, files[InVault(w, p)])
  {
    forall p | p in paths ensures InVault(w, p) in files && w.sopsOk(files[w.policy], p, files[InVault(w, p)]) {
      var i :| 0 <= i < |paths| && paths[i] == p;
      var d := DocumentIn(w, files)(paths[i]);
      assert d.Some?;
    }
  }

  /**
   Whatever archive is accepted, its members are exactly the fixed three and the documents its own
   inventory names, each but the checksum document has the listed digest, every document is valid,
   and the vault it restores is those documents and the inventory, as they are in the archive.
   */
  lemma AcceptedCoincides(w: Setting, files: Files, names: set<string>)
    returns (paths: seq<string>, checksums: Checksums)
    requires NamesOk(w) && ValidateExtracted(w, files, names).Some?
    ensures names == files.Keys == ExpectedMembers(w, paths)
    ensures w.inventory in files && LoadInventory(w, files[w.inventory]) == Some(paths)
    ensures w.checksum in files && w.parse(files[w.checksum]) == Some(checksums)
    ensures checksums.Keys == names - {w.checksum}
    ensures forall n :: n in checksums ==> n in files && checksums[n] == w.sha(files[n])
    ensures w.policy in files
    ensures forall p :: p in paths ==> InVault(w, p) in files && w.sopsOk(files[w.policy], p, files[InVault(w, p)])
    ensures var restored := ValidateExtracted(w, files, names).value;
      && restored.Keys == {w.local} + (set p | p in paths)
      && forall p :: p in restored ==> restored[p] == files[InVault(w, p)]
  {
    paths, checksums := ValidatedParts(w, files, names);
    CoherentDocuments(w, files, names, paths, checksums);
    VaultPartIs(w, files, paths);
  }

  /** Two different contents of one member that SHA-256 does not tell apart. */
  ghost predicate Collide(files: Files, others: Files, n: string, sha: Bytes -> string) {
    n in files && n in others && files[n] != others[n] && sha(files[n]) == sha(others[n])
  }

  /** The checksum document pins the whole archive: two archives that share it are the same, or collide. */
  lemma ChecksumsPinContents(w: Setting, files: Files, others: Files, names: set<string>, names': set<string>)
    requires NamesOk(w)
    requires ValidateExtracted(w, files, names).Some? && ValidateExtracted(w, others, names').Some?
    requires files[w.checksum] == others[w.checksum]
    ensures files == others || exists n :: Collide(files, others, n, w.sha)
  {
    var paths, checksums := AcceptedCoincides(w, files, names);
    var paths', checksums' := AcceptedCoincides(w, others, names');
    PinnedContents(files, others, w.checksum, checksums, w.sha);
  }

  lemma PinnedContents(files: Files, others: Files, own: string, checksums: Checksums, sha: Bytes -> string)
    requires own in files && own in others && files[own] == others[own]
    requires checksums.Keys == files.Keys - {own} == others.Keys - {own}
    requires forall n :: n in checksums ==> checksums[n] == sha(files[n]) == sha(others[n])
    ensures files == others || exists n :: Collide(files, others, n, sha)
  {
    forall n ensures n in files <==> n in others {
      assert n == own || (n in files <==> n in checksums.Keys);
    }
    if n :| n in files && files[n] != others[n] {
      assert Collide(files, others, n, sha);
    }
  }

  // ---------------------------------------------------------------------------
  // Backup, then restore
  // ---------------------------------------------------------------------------

  function AsMember(files: Files): string -> Member {
    (n: string) => Member(n, if n in files then |files[n]| else 0, true)
  }

  /** _write_archive: one regular member for every file, by name. */
  ghost function WriteArchive(files: Files): seq<Member> { Map(SortedNames(files.Keys), AsMember(files)) }

  /** What a caller can check of a backup: few and small enough files, whose names fit on a line. */
  ghost predicate Restorable(w: Setting, files: Files) {
    && |files| <= MAX_MEMBERS && Total(WriteArchive(files)) <= MAX_ARCHIVE_BYTES
    && w.checksum in files && Readable(files[w.checksum]) && AllLineSafe(files.Keys - {w.checksum})
  }

  predicate AllLineSafe(names: set<string>) { forall n :: n in names ==> LineSafe(n) }

  /** A backup of these paths, from its file map. */
  ghost predicate Created(w: Setting, vault: Files, policy: Bytes, paths: seq<string>, base: Files, files: Files) {
    && w.local in vault && (forall p :: p in paths ==> p in vault)
    && LoadInventory(w, vault[w.local]) == Some(paths) && Readable(vault[w.local])
    && VaultOk(w, vault, policy, paths)
    && Collected(w, vault, policy, paths, base)
    && w.document(base).Some? && files == base[w.checksum := w.document(base).value]
  }

  lemma BackupCreates(w: Setting, vault: Files, policy: Bytes) returns (paths: seq<string>, base: Files)
    requires NamesOk(w) && CreateBackup(w, vault, policy).Some?
    ensures Created(w, vault, policy, paths, base, CreateBackup(w, vault, policy).value)
  {
    paths := CheckedPaths(w, vault, policy).value;
    base := BaseFiles(w, vault, policy, paths);
    BaseCollected(w, vault, policy, paths);
  }

  /** Every file of the backup but the checksum document, with what is needed of it. */
  ghost predicate SameContents(w: Setting, vault: Files, policy: Bytes, paths: seq<string>, files: Files)
    requires w.local in vault && forall p :: p in paths ==> p in vault
  {
    && files.Keys == ExpectedMembers(w, paths)
    && files[w.inventory] == vault[w.local] && files[w.policy] == policy
    && forall p :: p in paths ==> files[InVault(w, p)] == vault[p]
  }

  lemma CreatedDocument(w: Setting, vault: Files, policy: Bytes, paths: seq<string>, i: nat)
    requires NamesOk(w) && PathsOk(w, paths) && i < |paths| && DocumentsOk(w, paths, policy, Lookup(vault))
    ensures InVault(w, paths[i]) != w.checksum && w.safe(InVault(w, paths[i])) && Allowed(w, InVault(w, paths[i]))
    ensures paths[i] in vault && Readable(vault[paths[i]]) && w.sopsOk(policy, paths[i], vault[paths[i]])
  {
    InVaultDistinct(w, paths[i]);
    InVaultParts(w, paths[i]);
    assert Lookup(vault)(paths[i]).Some?;
    var whole, path := InVault(w, paths[i]), paths[i];
    assert whole[|whole| - |w.suffix|..] == path[|path| - |w.suffix|..];
  }

  lemma CollectedAgain(w: Setting, vault: Files, policy: Bytes, paths: seq<string>, base: Files, document: Bytes)
    requires NamesOk(w) && PathsOk(w, paths) && w.local in vault && forall p :: p in paths ==> p in vault
    requires Collected(w, vault, policy, paths, base)
    ensures w.checksum !in base
    ensures var files := base[w.checksum := document];
      SameContents(w, vault, policy, paths, files) && base.Keys == files.Keys - {w.checksum}
  {
    forall p | p in paths ensures InVault(w, p) != w.checksum {
      var i :| 0 <= i < |paths| && paths[i] == p;
      InVaultDistinct(w, p);
    }
  }

  lemma CreatedMembers(w: Setting, vault: Files, policy: Bytes, paths: seq<string>, base: Files, files: Files)
    requires NamesOk(w) && Created(w, vault, policy, paths, base, files)
    ensures SameContents(w, vault, policy, paths, files)
    ensures w.checksum !in base && base.Keys == files.Keys - {w.checksum} && w.inventory in base
    ensures forall n :: n in base ==> files[n] == base[n]
  {
    CollectedAgain(w, vault, policy, paths, base, w.document(base).value);
  }

  lemma MemberFacts(w: Setting, vault: Files, policy: Bytes, paths: seq<string>, files: Files, n: string)
    requires NamesOk(w) && PathsOk(w, paths) && Readable(policy) && DocumentsOk(w, paths, policy, Lookup(vault))
    requires w.local in vault && Readable(vault[w.local]) && (forall p :: p in paths ==> p in vault)
    requires SameContents(w, vault, policy, paths, files) && n in files
    ensures w.safe(n) && Allowed(w, n) && (n != w.checksum ==> Readable(files[n]))
  {
    if n in VaultNames(w, paths) {
      var p :| p in paths && InVault(w, p) == n;
      var i :| 0 <= i < |paths| && paths[i] == p;
      CreatedDocument(w, vault, policy, paths, i);
    }
  }

  /** The digests of the files, as the document lists them. */
  function Digests(w: Setting, files: Files): Checksums { map n | n in files :: w.sha(files[n]) }

  lemma PrintedReadsBack(w: Setting, base: Files)
    requires Lawful(w) && base != map[] && w.document(base).Some?
    requires forall n :: n in base ==> LineSafe(n) && w.safe(n) && n != w.checksum
    ensures w.parse(w.document(base).value) == Some(Digests(w, base))
  {
    var names, digest := SortedNames(base.Keys), DigestIn(w, base);
    SortedNamesAre(base.Keys);
    forall i | 0 <= i < |names| ensures Listable(names[i], digest, w.checksum, w.safe) {
      assert names[i] in names;
    }
    assert names != [];
    assert w.document(base) == ChecksumBytes(w, base);
    ParsePrintedDocument(names, digest, w.checksum, w.safe);
    DigestMapIs(w, names, base);
  }

  lemma DigestMapIs(w: Setting, names: seq<string>, base: Files)
    requires forall n :: n in names <==> n in base
    ensures DigestMap(names, DigestIn(w, base)) == Digests(w, base)
  {
  }

  lemma ParsedNamesLineSafe(w: Setting, b: Bytes, name: string)
    requires Lawful(w) && w.parse(b).Some? && name in w.parse(b).value
    ensures LineSafe(name)
  {
    assert w.parse(b) == ParseDocument(b, w.checksum, w.safe);
    DocumentNamesLineSafe(b, w.checksum, w.safe, name);
  }

  /** The checksum document of a backup reads back exactly when every name fits on a line. */
  lemma CreatedChecksumsIff(w: Setting, base: Files, document: Bytes)
    requires Lawful(w) && base != map[] && w.document(base) == Some(document)
    requires forall n :: n in base ==> w.safe(n) && n != w.checksum
    ensures AllLineSafe(base.Keys) ==> w.parse(document) == Some(Digests(w, base))
    ensures w.parse(document).Some? && w.parse(document).value.Keys == base.Keys ==> AllLineSafe(base.Keys)
  {
    if AllLineSafe(base.Keys) {
      PrintedReadsBack(w, base);
    }
    if w.parse(document).Some? && w.parse(document).value.Keys == base.Keys {
      forall n | n in base ensures LineSafe(n) {
        ParsedNamesLineSafe(w, document, n);
      }
    }
  }

  lemma CreatedCoherent(w: Setting, vault: Files, policy: Bytes, paths: seq<string>, files: Files, base: Files)
    requires NamesOk(w) && PathsOk(w, paths) && w.policyOk(policy) && DocumentsOk(w, paths, policy, Lookup(vault))
    requires w.local in vault && forall p :: p in paths ==> p in vault
    requires SameContents(w, vault, policy, paths, files) && base.Keys == files.Keys - {w.checksum}
    requires forall n :: n in base ==> files[n] == base[n] && Readable(files[n])
    ensures Coherent(w, files, files.Keys, paths, Digests(w, base))
  {
    forall i | 0 <= i < |paths|
      ensures var d := DocumentIn(w, files)(paths[i]);
        d.Some? && Readable(d.value) && w.sopsOk(policy, paths[i], d.value)
    {
      CreatedDocument(w, vault, policy, paths, i);
      assert paths[i] in paths;
      assert InVault(w, paths[i]) in VaultNames(w, paths);
      assert files[InVault(w, paths[i])] == vault[paths[i]];
      assert DocumentIn(w, files)(paths[i]) == Some(vault[paths[i]]);
    }
  }

  lemma ValidatesWhen(w: Setting, files: Files, paths: seq<string>, checksums: Checksums, fits: bool)
    requires w.inventory in files && w.checksum in files
    requires LoadInventory(w, files[w.inventory]) == Some(paths) && Readable(files[w.inventory])
    requires Coherent(w, files, files.Keys, paths, checksums)
    requires fits ==> w.parse(files[w.checksum]) == Some(checksums)
    requires w.parse(files[w.checksum]).Some? && w.parse(files[w.checksum]).value.Keys == files.Keys - {w.checksum} ==>
      fits
    ensures ValidateExtracted(w, files, files.Keys).Some? <==> Readable(files[w.checksum]) && fits
  {
    if ValidateExtracted(w, files, files.Keys).Some? {
      var paths', checksums' := ValidatedParts(w, files, files.Keys);
    }
  }

  /** What validation depends on. */
  ghost predicate WellMade(w: Setting, paths: seq<string>, base: Files, files: Files) {
    && w.inventory in files && w.checksum in files && w.inventory in base
    && LoadInventory(w, files[w.inventory]) == Some(paths) && Readable(files[w.inventory])
    && w.document(base) == Some(files[w.checksum]) && base.Keys == files.Keys - {w.checksum}
    && (forall n :: n in base ==> w.safe(n) && n != w.checksum)
    && Coherent(w, files, files.Keys, paths, Digests(w, base))
  }

  lemma CreatedWellMade(w: Setting, vault: Files, policy: Bytes, paths: seq<string>, base: Files, files: Files)
    requires NamesOk(w) && Created(w, vault, policy, paths, base, files)
    ensures WellMade(w, paths, base, files)
  {
    CreatedMembers(w, vault, policy, paths, base, files);
    forall n | n in files ensures w.safe(n) && (n != w.checksum ==> Readable(files[n])) {
      MemberFacts(w, vault, policy, paths, files, n);
    }
    CreatedCoherent(w, vault, policy, paths, files, base);
  }

  lemma WellMadeValidatesIff(w: Setting, paths: seq<string>, base: Files, files: Files)
    requires Lawful(w) && WellMade(w, paths, base, files)
    ensures ValidateExtracted(w, files, files.Keys).Some? <==>
      Readable(files[w.checksum]) && AllLineSafe(files.Keys - {w.checksum})
  {
    CreatedChecksumsIff(w, base, files[w.checksum]);
    WellMadeValidatesWhen(w, paths, base, files, AllLineSafe(base.Keys));
  }

  lemma WellMadeValidatesWhen(w: Setting, paths: seq<string>, base: Files, files: Files, fits: bool)
    requires WellMade(w, paths, base, files)
    requires fits ==> w.parse(files[w.checksum]) == Some(Digests(w, base))
    requires w.parse(files[w.checksum]).Some? && w.parse(files[w.checksum]).value.Keys == base.Keys ==> fits
    ensures ValidateExtracted(w, files, files.Keys).Some? <==> Readable(files[w.checksum]) && fits
  {
    ValidatesWhen(w, files, paths, Digests(w, base), fits);
  }

  lemma ArchiveMember(files: Files, i: nat)
    requires i < |WriteArchive(files)|
    ensures |WriteArchive(files)| == |files| && i < |SortedNames(files.Keys)|
    ensures var n := SortedNames(files.Keys)[i]; n in files && WriteArchive(files)[i] == Member(n, |files[n]|, true)
  {
    SortedNamesAre(files.Keys);
    assert SortedNames(files.Keys)[i] in SortedNames(files.Keys);
    assert |files.Keys| == |files|;
  }

  lemma ArchiveNames(files: Files)
    ensures MemberNames(WriteArchive(files)) == files.Keys
  {
    var members, names := WriteArchive(files), SortedNames(files.Keys);
    SortedNamesAre(files.Keys);
    forall n ensures n in MemberNames(members) <==> n in files {
      if n in files {
        assert n in names;
        var i :| 0 <= i < |names| && names[i] == n;
        ArchiveMember(files, i);
        assert members[i] in members;
      }
      if m :| m in members && m.name == n {
        var i :| 0 <= i < |members| && members[i] == m;
        ArchiveMember(files, i);
      }
    }
  }

  lemma WrittenPreflightIff(w: Setting, files: Files)
    requires files != map[] && {w.checksum, w.inventory, w.policy} <= files.Keys
    requires forall n :: n in files ==> w.safe(n) && Allowed(w, n)
    ensures PreflightOk(w, WriteArchive(files)) <==>
      |files| <= MAX_MEMBERS && Total(WriteArchive(files)) <= MAX_ARCHIVE_BYTES
  {
    ArchiveNames(files);
    SortedNamesAre(files.Keys);
    assert |files.Keys| == |files|;
    WrittenMembersIff(files, MemberCheck(w));
  }

  lemma WrittenMembersIff(files: Files, check: Member -> bool)
    requires forall n :: n in files ==> check(Member(n, |files[n]|, true))
    ensures MembersOk(check, WriteArchive(files)) <==> Total(WriteArchive(files)) <= MAX_ARCHIVE_BYTES
  {
    var members, names := WriteArchive(files), SortedNames(files.Keys);
    SortedNamesAre(files.Keys);
    forall i | 0 <= i < |members| ensures check(members[i]) && members[i].name == names[i] {
      ArchiveMember(files, i);
    }
    forall i, j | 0 <= i < j < |members| ensures members[i].name != members[j].name {
      assert names[i] != names[j];
    }
  }

  lemma CreatedPreflightIff(w: Setting, vault: Files, policy: Bytes, paths: seq<string>, base: Files, files: Files)
    requires NamesOk(w) && Created(w, vault, policy, paths, base, files)
    ensures PreflightOk(w, WriteArchive(files)) <==>
      |files| <= MAX_MEMBERS && Total(WriteArchive(files)) <= MAX_ARCHIVE_BYTES
  {
    CreatedMembers(w, vault, policy, paths, base, files);
    forall n | n in files ensures w.safe(n) && Allowed(w, n) {
      MemberFacts(w, vault, policy, paths, files, n);
    }
    WrittenPreflightIff(w, files);
  }

  lemma RestoredVault(w: Setting, vault: Files, policy: Bytes, paths: seq<string>, files: Files)
    requires NamesOk(w) && w.local in vault && (set p | p in paths) == Discovered(w, vault)
    requires (forall p :: p in paths ==> p in vault) && SameContents(w, vault, policy, paths, files)
    ensures VaultPart(w, files) == VaultDocuments(w, vault)
  {
    VaultPartIs(w, files, paths);
    var part := VaultPart(w, files);
    forall p ensures p in Discovered(w, vault) <==> p in paths { assert p in (set q | q in paths) <==> p in paths; }
    forall p | p in part ensures p in vault && part[p] == vault[p] {
      if p == w.local { assert InVault(w, p) == w.inventory; }
    }
  }

  /** The inventory and the encrypted documents of a vault. */
  function VaultDocuments(w: Setting, vault: Files): Files {
    map p | p in {w.local} + Discovered(w, vault) && p in vault :: vault[p]
  }

  lemma CreatedValidatesIff(w: Setting, vault: Files, policy: Bytes, paths: seq<string>, base: Files, files: Files)
    requires Lawful(w) && Created(w, vault, policy, paths, base, files)
    ensures ValidateExtracted(w, files, files.Keys).Some? <==>
      w.checksum in files && Readable(files[w.checksum]) && AllLineSafe(files.Keys - {w.checksum})
  {
    CreatedWellMade(w, vault, policy, paths, base, files);
    WellMadeValidatesIff(w, paths, base, files);
  }

  lemma CreatedRestores(w: Setting, vault: Files, policy: Bytes, paths: seq<string>, base: Files, files: Files)
    requires NamesOk(w) && Created(w, vault, policy, paths, base, files)
    ensures ValidateExtracted(w, files, files.Keys).Some? ==>
      ValidateExtracted(w, files, files.Keys).value == VaultDocuments(w, vault)
  {
    CreatedMembers(w, vault, policy, paths, base, files);
    RestoredVault(w, vault, policy, paths, files);
    ValidatedIsVaultPart(w, files);
  }

  lemma ValidatedIsVaultPart(w: Setting, files: Files)
    ensures ValidateExtracted(w, files, files.Keys).Some? ==>
      ValidateExtracted(w, files, files.Keys).value == VaultPart(w, files)
  {
  }

  lemma BackupPreflightIff(w: Setting, vault: Files, policy: Bytes)
    requires NamesOk(w) && CreateBackup(w, vault, policy).Some?
    ensures var files := CreateBackup(w, vault, policy).value;
      PreflightOk(w, WriteArchive(files)) <==> |files| <= MAX_MEMBERS && Total(WriteArchive(files)) <= MAX_ARCHIVE_BYTES
  {
    var paths, base := BackupCreates(w, vault, policy);
    CreatedPreflightIff(w, vault, policy, paths, base, CreateBackup(w, vault, policy).value);
  }

  lemma BackupValidatesIff(w: Setting, vault: Files, policy: Bytes)
    requires Lawful(w) && CreateBackup(w, vault, policy).Some?
    ensures var files := CreateBackup(w, vault, policy).value;
      ValidateExtracted(w, files, files.Keys).Some? <==>
        w.checksum in files && Readable(files[w.checksum]) && AllLineSafe(files.Keys - {w.checksum})
  {
    var paths, base := BackupCreates(w, vault, policy);
    CreatedValidatesIff(w, vault, policy, paths, base, CreateBackup(w, vault, policy).value);
  }

  lemma BackupRestoresVault(w: Setting, vault: Files, policy: Bytes)
    requires NamesOk(w) && CreateBackup(w, vault, policy).Some?
    ensures var files := CreateBackup(w, vault, policy).value;
      ValidateExtracted(w, files, files.Keys).Some? ==>
        ValidateExtracted(w, files, files.Keys).value == VaultDocuments(w, vault)
  {
    var paths, base := BackupCreates(w, vault, policy);
    CreatedRestores(w, vault, policy, paths, base, CreateBackup(w, vault, policy).value);
  }

  /** What restore makes of an archive: the vault directory it would put in place. */
  ghost function RestoreArchive(w: Setting, files: Files): Option<Files> {
    var members := WriteArchive(files);
    if PreflightOk(w, members) then ValidateExtracted(w, files, MemberNames(members)) else None
  }

  /**
   A backup passes preflight and validation exactly when its counts and sizes are within the limits
   and its names fit on a line, which the backup itself does not check; what it then restores is the
   inventory and the documents of the vault, unchanged.
   */
  lemma BackupRestoresIff(w: Setting, vault: Files, policy: Bytes)
    requires Lawful(w) && CreateBackup(w, vault, policy).Some?
    ensures var files := CreateBackup(w, vault, policy).value;
      RestoreArchive(w, files) == if Restorable(w, files) then Some(VaultDocuments(w, vault)) else None
  {
    BackupPreflightIff(w, vault, policy);
    BackupValidatesIff(w, vault, policy);
    BackupRestoresVault(w, vault, policy);
    Assembled(w, CreateBackup(w, vault, policy).value, VaultDocuments(w, vault));
  }

  lemma Assembled(w: Setting, files: Files, vault: Files)
    requires PreflightOk(w, WriteArchive(files)) <==>
      |files| <= MAX_MEMBERS && Total(WriteArchive(files)) <= MAX_ARCHIVE_BYTES
    requires ValidateExtracted(w, files, files.Keys).Some? <==>
      w.checksum in files && Readable(files[w.checksum]) && AllLineSafe(files.Keys - {w.checksum})
    requires ValidateExtracted(w, files, files.Keys).Some? ==> ValidateExtracted(w, files, files.Keys).value == vault
    ensures RestoreArchive(w, files) == if Restorable(w, files) then Some(vault) else None
  {
    ArchiveNames(files);
  }

  // ---------------------------------------------------------------------------
  // The program's own names
  // ---------------------------------------------------------------------------

  const CHECKSUM_NAME := "SHA256SUMS"
  const TOP_NAME := "vault"
  const LOCAL_NAME := "inventory.yaml"
  const POLICY_TOP := "policy"
  const POLICY_NAME := ".sops.yaml"
  const DOCUMENT_SUFFIX := ".sops.yaml"

  /** A component that is nothing out of the ordinary. */
  predicate PlainPart(p: string) {
    NamedPart(p) && p != ".." && '/' !in p && '\\' !in p && LineSafe(p)
  }

  lemma PlainChecksum()
    ensures PlainPart(CHECKSUM_NAME)
  {
    assert CHECKSUM_NAME[0] == 'S';
  }

  lemma PlainTops()
    ensures PlainPart(TOP_NAME) && PlainPart(POLICY_TOP)
  {
    assert TOP_NAME[0] == 'v' && POLICY_TOP[0] == 'p';
  }

  lemma PlainLocal()
    ensures PlainPart(LOCAL_NAME)
  {
    assert LOCAL_NAME[0] == 'i';
  }

  lemma PlainPolicy()
    ensures PlainPart(POLICY_NAME)
  {
    assert POLICY_NAME[1] == 's';
  }

  lemma PlainParts()
    ensures PlainPart(CHECKSUM_NAME) && PlainPart(TOP_NAME) && PlainPart(LOCAL_NAME)
    ensures PlainPart(POLICY_TOP) && PlainPart(POLICY_NAME)
  {
    PlainChecksum();
    PlainTops();
    PlainLocal();
    PlainPolicy();
  }

  lemma OnePartSafe(p: string)
    requires PlainPart(p)
    ensures SafeRelative(p)
  {
    Text.SplitFirst(p, '/', "");
    ContainedIsAccepted(p);
  }

  lemma BeneathSafe(top: string, path: string)
    requires PlainPart(top) && SafeRelative(path) && path != "."
    ensures SafeRelative(top + "/" + path)
  {
    var whole := top + "/" + path;
    AcceptedIsContained(path);
    Text.SplitFirst(top, '/', path);
    assert whole == top + ['/'] + path;
    ContainedIsAccepted(whole);
    BackslashFree(top, path);
  }

  lemma BackslashFree(a: string, b: string)
    requires '\\' !in a && '\\' !in b
    ensures '\\' !in a + "/" + b
  {
  }

  lemma JoinedLineSafe(a: string, b: string)
    requires LineSafe(a) && LineSafe(b)
    ensures LineSafe(a + "/" + b)
  {
    var s := a + "/" + b;
    forall i | 0 <= i < |s| ensures !LineBreak(s[i]) && s[i] != '\0' && s[i] != '\r' && s[i] != '\n' {
      if i < |a| {
        assert s[i] == a[i];
      } else if i > |a| {
        assert s[i] == b[i - |a| - 1];
      }
    }
  }

  lemma NamesApart()
    ensures !Text.EndsWith(LOCAL_NAME, DOCUMENT_SUFFIX)
    ensures CHECKSUM_NAME[0] != TOP_NAME[0] && POLICY_TOP[0] != TOP_NAME[0] && CHECKSUM_NAME[0] != POLICY_TOP[0]
  {
    assert LOCAL_NAME[|LOCAL_NAME| - |DOCUMENT_SUFFIX|..][0] == 'n';
  }

  lemma PrefixFirst(top: string, s: string)
    requires top != "" && s != "" && s[0] != top[0]
    ensures !(top + "/" <= s)
  {
    PrefixShares(top + "/", s);
    assert (top + "/")[0] == top[0];
  }

  lemma PrefixShares(a: string, s: string)
    requires a != ""
    ensures a <= s ==> s != "" && s[0] == a[0]
  {
  }

  ghost predicate StandardNames(w: Setting) {
    && w.checksum == CHECKSUM_NAME && w.top == TOP_NAME && w.local == LOCAL_NAME && w.suffix == DOCUMENT_SUFFIX
    && w.inventory == TOP_NAME + "/" + LOCAL_NAME && w.policy == POLICY_TOP + "/" + POLICY_NAME
    && forall p :: w.safe(p) == SafeRelative(p)
  }

  lemma SafeBeneathTop(w: Setting, top: string, path: string)
    requires PlainPart(top) && w.top == top && w.safe(path) == SafeRelative(path)
    requires w.safe(InVault(w, path)) == SafeRelative(InVault(w, path))
    requires w.safe(path) && path != "."
    ensures w.safe(InVault(w, path))
  {
    BeneathSafe(top, path);
  }

  /** The names the program uses are as the proofs need them. */
  lemma StandardSetting(w: Setting)
    requires StandardNames(w)
    ensures NamesOk(w)
  {
    PlainParts();
    NamesApart();
    FixedNamesSafe(w);
    PrefixFirst(w.top, w.checksum);
    PrefixFirst(w.top, w.policy);
    JoinedLineSafe(TOP_NAME, LOCAL_NAME);
    JoinedLineSafe(POLICY_TOP, POLICY_NAME);
    forall p {:trigger InVault(w, p)} | w.safe(p) && Text.EndsWith(p, w.suffix) ensures w.safe(InVault(w, p)) {
      SafeBeneathTop(w, TOP_NAME, p);
    }
    FirstChars(w);
  }

  lemma FirstChars(w: Setting)
    requires StandardNames(w)
    ensures w.checksum != w.inventory && w.checksum != w.policy && w.inventory != w.policy
  {
    NamesApart();
    assert w.checksum[0] == CHECKSUM_NAME[0] && w.inventory[0] == TOP_NAME[0] && w.policy[0] == POLICY_TOP[0];
  }

  lemma FixedNamesSafe(w: Setting)
    requires StandardNames(w)
    ensures w.safe(w.checksum) && w.safe(w.inventory) && w.safe(w.policy)
  {
    PlainParts();
    OnePartSafe(CHECKSUM_NAME);
    OnePartSafe(LOCAL_NAME);
    OnePartSafe(POLICY_NAME);
    BeneathSafe(TOP_NAME, LOCAL_NAME);
    BeneathSafe(POLICY_TOP, POLICY_NAME);
  }
}
