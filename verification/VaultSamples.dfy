/**
 A vault that is backed up without complaint and whose backup is then refused: one of its documents
 has a name with a line break, which the checksum document cannot carry.
 */
module VaultSamples {
  import opened Wrappers
  import opened Lists
  import opened Order
  import opened PosixPath
  import opened ChecksumDocument
  import opened VaultArchive
  import Text

  function Zeros(): string { seq(64, _ => '0') }

  function SafeTest(): string -> bool { (p: string) => SafeRelative(p) }

  /** The program's names, an inventory of one document, and a digest that tells nothing apart. */
  ghost function BareSetting(path: string): Setting {
    Setting(CHECKSUM_NAME, TOP_NAME + "/" + LOCAL_NAME, POLICY_TOP + "/" + POLICY_NAME, TOP_NAME, LOCAL_NAME,
      DOCUMENT_SUFFIX, SafeTest(), _ => None, b => ParseDocument(b, CHECKSUM_NAME, SafeTest()), _ => Zeros(),
      _ => Some([path]), _ => true, (_, _, _) => true)
  }

  ghost function SampleSetting(path: string): Setting {
    BareSetting(path).(document := files => ChecksumBytes(BareSetting(path), files))
  }

  function SampleVault(path: string): Files { map[LOCAL_NAME := [], path := []] }

  lemma SameLines(names: seq<string>, a: string -> string, b: string -> string)
    requires forall n :: a(n) == b(n)
    ensures PrintText(names, a) == PrintText(names, b)
  {
    assert Map(names, LineFor(a)) == Map(names, LineFor(b));
  }

  lemma SampleDocuments(path: string)
    ensures Documents(SampleSetting(path))
  {
    var w, bare := SampleSetting(path), BareSetting(path);
    forall files ensures w.document(files) == ChecksumBytes(w, files) {
      SameLines(SortedNames(files.Keys), DigestIn(w, files), DigestIn(bare, files));
      assert w.document(files) == ChecksumBytes(bare, files);
    }
  }

  lemma SampleStandard(path: string)
    ensures StandardNames(SampleSetting(path))
  {
  }

  lemma SampleLawful(path: string)
    ensures Lawful(SampleSetting(path))
  {
    SampleDocuments(path);
    SampleStandard(path);
    StandardSetting(SampleSetting(path));
    DigestsAreZeros(path);
  }

  lemma DigestsAreZeros(path: string)
    ensures forall b :: HexDigest(SampleSetting(path).sha(b))
  {
    assert HexDigest(Zeros());
  }

  lemma AsciiNames(path: string)
    requires Ascii(path)
    ensures var w := SampleSetting(path); Ascii(w.inventory) && Ascii(w.policy) && Ascii(InVault(w, path))
  {
    AsciiPart(TOP_NAME, LOCAL_NAME);
    AsciiPart(POLICY_TOP, POLICY_NAME);
    AsciiPart(TOP_NAME, path);
  }

  lemma AsciiPart(top: string, name: string)
    requires Ascii(top) && Ascii(name)
    ensures Ascii(top + "/" + name)
  {
  }

  /** A document name that the program accepts in an inventory. */
  predicate Acceptable(path: string) {
    Ascii(path) && SafeRelative(path) && Text.EndsWith(path, DOCUMENT_SUFFIX) && path != LOCAL_NAME
  }

  lemma SampleChecked(path: string)
    requires Acceptable(path)
    ensures CheckedPaths(SampleSetting(path), SampleVault(path), []) == Some([path])
  {
    var w, vault := SampleSetting(path), SampleVault(path);
    NamesApart();
    assert Discovered(w, vault) == {path};
    assert (set p | p in [path]) == {path};
    assert Lookup(vault)(path) == Some([]);
  }

  lemma BaseOfOne(w: Setting, vault: Files, policy: Bytes, path: string)
    requires w.local in vault && path in vault
    ensures BaseFiles(w, vault, policy, [path]).Keys == {w.inventory, w.policy, InVault(w, path)}
  {
    assert [path][..0] == [];
    assert BaseFiles(w, vault, policy, []) == map[w.inventory := vault[w.local], w.policy := policy];
  }

  lemma DocumentMade(w: Setting, base: Files)
    requires Lawful(w) && forall n :: n in base ==> Ascii(n)
    ensures w.document(base).Some?
  {
    SortedNamesAre(base.Keys);
    AsciiText(SortedNames(base.Keys), DigestIn(w, base));
    assert w.document(base) == ChecksumBytes(w, base);
  }

  lemma DocumentOfOne(w: Setting, vault: Files, policy: Bytes, path: string)
    requires Lawful(w) && w.local in vault && path in vault
    requires Ascii(w.inventory) && Ascii(w.policy) && Ascii(InVault(w, path))
    ensures w.document(BaseFiles(w, vault, policy, [path])).Some?
  {
    BaseOfOne(w, vault, policy, path);
    DocumentMade(w, BaseFiles(w, vault, policy, [path]));
  }

  lemma BacksUp(w: Setting, vault: Files, policy: Bytes, path: string)
    requires CheckedPaths(w, vault, policy) == Some([path]) && path in vault
    requires w.document(BaseFiles(w, vault, policy, [path])).Some?
    ensures var r := CreateBackup(w, vault, policy); r.Some? && InVault(w, path) in r.value
  {
    BaseOfOne(w, vault, policy, path);
    Written(w, vault, policy, [path]);
  }

  lemma Written(w: Setting, vault: Files, policy: Bytes, paths: seq<string>)
    requires CheckedPaths(w, vault, policy) == Some(paths)
    requires w.document(BaseFiles(w, vault, policy, paths)).Some?
    ensures var base := BaseFiles(w, vault, policy, paths);
      CreateBackup(w, vault, policy) == Some(base[w.checksum := w.document(base).value])
  {
  }

  lemma Refused(w: Setting, vault: Files, policy: Bytes, files: Files, name: string)
    requires Lawful(w) && CreateBackup(w, vault, policy) == Some(files)
    requires name in files && name != w.checksum && !LineSafe(name)
    ensures RestoreArchive(w, files) == None
  {
    NotRestorable(w, files, name);
    BackupRestoresIff(w, vault, policy);
  }

  lemma NotRestorable(w: Setting, files: Files, name: string)
    requires name in files && name != w.checksum && !LineSafe(name)
    ensures !Restorable(w, files)
  {
    assert name in files.Keys - {w.checksum};
  }

  /** The backup succeeds and what it wrote is refused. */
  lemma BackedUpButRefused(path: string)
    requires Acceptable(path) && !LineSafe(path)
    ensures var w := SampleSetting(path); var r := CreateBackup(w, SampleVault(path), []);
      Lawful(w) && r.Some? && RestoreArchive(w, r.value) == None
  {
    var w := SampleSetting(path);
    SampleLawful(path);
    SampleChecked(path);
    AsciiNames(path);
    DocumentOfOne(w, SampleVault(path), [], path);
    BacksUp(w, SampleVault(path), [], path);
    InVaultDistinct(w, path);
    BrokenBeneath(w.top, path);
    Refused(w, SampleVault(path), [], CreateBackup(w, SampleVault(path), []).value, InVault(w, path));
  }

  lemma BrokenBeneath(top: string, path: string)
    requires !LineSafe(path) && path != ""
    ensures !LineSafe(top + "/" + path)
  {
    var s := top + "/" + path;
    var i :| 0 <= i < |path| && (LineBreak(path[i]) || path[i] == '\0' || path[i] == '\r' || path[i] == '\n');
    assert s[|top| + 1 + i] == path[i];
  }

  lemma LeadingBreak(rest: string)
    requires rest != "" && Ascii(rest) && '/' !in rest && '\\' !in rest
    ensures var path := ['\n'] + rest;
      Ascii(path) && SafeRelative(path) && Text.EndsWith(path, rest) && !LineSafe(path) && path[0] == '\n'
  {
    var path := ['\n'] + rest;
    assert path[|path| - |rest|..] == rest;
    Text.SplitFirst(path, '/', "");
    ContainedIsAccepted(path);
  }

  /** There is such a name. */
  lemma LineBreakAccepted()
    ensures var path := ['\n'] + DOCUMENT_SUFFIX; Acceptable(path) && !LineSafe(path)
  {
    assert Ascii(DOCUMENT_SUFFIX) && '/' !in DOCUMENT_SUFFIX && '\\' !in DOCUMENT_SUFFIX;
    LeadingBreak(DOCUMENT_SUFFIX);
    assert LOCAL_NAME[0] == 'i';
  }

  lemma LineBreakRefused()
    ensures var path := ['\n'] + DOCUMENT_SUFFIX;
      var w := SampleSetting(path); var r := CreateBackup(w, SampleVault(path), []);
      Lawful(w) && r.Some? && RestoreArchive(w, r.value) == None
  {
    LineBreakAccepted();
    BackedUpButRefused(['\n'] + DOCUMENT_SUFFIX);
  }
}
