/**
 Two bundles that the store accepts and catalogues although resolution or the digest of what was
 installed then disagrees: a wrapper that sealing does not copy, and a hashed file that installation
 does not copy.
 */
module ContractSamples {
  import opened Wrappers
  import opened ContractDigest
  import opened ContractReferences
  import opened ContractStore
  import opened ContractResolution
  import opened PosixPath
  import Text

  // ---------------------------------------------------------------------------
  // A hash without collisions
  // ---------------------------------------------------------------------------

  /** Three bytes a character. */
  function WideBytes(s: string): Bytes {
    seq(3 * |s|, i requires 0 <= i < 3 * |s| =>
      var c := s[i / 3] as int;
      if i % 3 == 0 then c / 65536 % 256 else if i % 3 == 1 then c / 256 % 256 else c % 256)
  }

  /** One character a byte. */
  function Characters(b: Bytes): string { seq(|b|, i requires 0 <= i < |b| => b[i] as char) }

  function CharacterBytes(s: string): Bytes { seq(|s|, i requires 0 <= i < |s| => s[i] as int % 256) }

  function SampleHashing(): Hashing { Hashing(s => WideBytes(s), b => Characters(b)) }

  lemma WideAt(s: string, i: nat)
    requires i < |s|
    ensures 3 * i + 2 < |WideBytes(s)|
    ensures var b := WideBytes(s);
      var high: int, middle: int, low: int := b[3 * i], b[3 * i + 1], b[3 * i + 2];
      s[i] as int == high * 65536 + middle * 256 + low
  {
    assert 3 * i / 3 == i && (3 * i + 1) / 3 == i && (3 * i + 2) / 3 == i;
    assert 3 * i % 3 == 0 && (3 * i + 1) % 3 == 1 && (3 * i + 2) % 3 == 2;
    var c := s[i] as int;
    assert c / 65536 < 256;
  }

  lemma WideInjective(a: string, b: string)
    requires WideBytes(a) == WideBytes(b)
    ensures a == b
  {
    forall i | 0 <= i < |a| ensures i < |b| && a[i] == b[i] {
      assert 3 * |a| == |WideBytes(a)| == 3 * |b|;
      WideAt(a, i);
      WideAt(b, i);
    }
    assert 3 * |a| == |WideBytes(a)| == 3 * |b|;
  }

  lemma CharactersInjective(a: Bytes, b: Bytes)
    requires Characters(a) == Characters(b)
    ensures a == b
  {
    assert |a| == |Characters(a)| == |b|;
    forall i | 0 <= i < |a| ensures a[i] == b[i] {
      assert Characters(a)[i] == Characters(b)[i];
    }
  }

  lemma WrittenReadsBack(b: Bytes)
    ensures Characters(CharacterBytes(Characters(b))) == Characters(b)
  {
  }

  ghost function SampleRules(d: Descriptor): Rules {
    Rules(SampleHashing(), t => DigestOf(t, SampleHashing()), _ => Some(d), _ => true, _ => true, _ => true, _ => true,
      s => CharacterBytes(s), b => Characters(b), s => s, ["sealed"], true)
  }

  const NOTHING := Store(map[], map[], Some(map[]))

  lemma SampleLawful(d: Descriptor)
    ensures DigestsTrees(SampleRules(d)) && Utf8Injective(SampleHashing())
    ensures forall a, b :: NoCollision(SampleHashing(), a, b)
  {
    forall a, b | SampleHashing().utf8(a) == SampleHashing().utf8(b) ensures a == b { WideInjective(a, b); }
    forall a, b ensures NoCollision(SampleHashing(), a, b) {
      if Characters(a) == Characters(b) { CharactersInjective(a, b); }
    }
  }

  /** The name of a file at the top of a bundle. */
  predicate TopLevel(name: string) { '/' !in name && NamedPart(name) && name != ".." }

  lemma TopName(root: Path, name: string)
    requires TopLevel(name)
    ensures SafeRelative(name) == Some([name]) && Located(root, name) == Some([name])
  {
    assert Text.Join("/", [name]) == name;
    Text.SplitJoin([name], '/');
    PartsOfCanonical(name);
    SafeIsLocated(root, name);
  }

  /** A descriptor that names files at the top. */
  lemma AllTop(root: Path, t: Tree, d: Descriptor)
    requires forall f :: f in References(d) ==> TopLevel(f) && [f] in t
    ensures AllFound(root, t, d)
    ensures Portable(d) <==> forall f :: f in References(d) ==> Kept([f])
  {
    forall f | f in References(d) ensures SafeRelative(f) == Some([f]) && Located(root, f) == Some([f]) {
      TopName(root, f);
    }
  }

  // ---------------------------------------------------------------------------
  // A wrapper that sealing does not copy
  // ---------------------------------------------------------------------------

  const CANDIDATE := Bundle("abc", "1.0.0")

  /** The wrapper is Python text under a name that the copy ignores. */
  const UNPORTABLE := Descriptor(CANDIDATE, "run.pyc", "e.py", "i.json", "i.json")

  function CandidateTree(): Tree {
    map[[DESCRIPTOR] := [], ["run.pyc"] := [], ["e.py"] := [], ["i.json"] := []]
  }

  lemma BytecodeSuffix(name: string)
    requires Text.EndsWith(name, BYTECODE) && name != BYTECODE
    ensures BytecodeName(name) && Skipped([name]) && !Kept([name]) && !Hashed([name])
  {
    assert Name([name]) == name;
  }

  lemma PythonName(name: string)
    requires Text.EndsWith(name, ".py") && |name| > 3 && name[0] != '_' && name != CHECKSUM
    ensures AllowedName(name) && Kept([name]) && Hashed([name]) && !Skipped([name])
  {
    assert ".py" in ALLOWED_SUFFIXES;
    assert BYTECODE[3] == 'c' && name[|name| - 1] == ".py"[2];
    assert Name([name]) == name && !Text.EndsWith(name, BYTECODE) && CACHE[0] == '_';
  }

  lemma JsonName(name: string)
    requires Text.EndsWith(name, ".json") && |name| > 5 && name[0] != '_' && name != CHECKSUM
    ensures AllowedName(name) && Kept([name]) && Hashed([name]) && !Skipped([name])
  {
    assert ".json" in ALLOWED_SUFFIXES;
    assert BYTECODE[3] == 'c' && name[|name| - 1] == ".json"[4];
    assert Name([name]) == name && !Text.EndsWith(name, BYTECODE) && CACHE[0] == '_';
  }

  lemma CandidateNames()
    ensures Permitted([DESCRIPTOR]) && Permitted(["e.py"]) && Permitted(["i.json"]) && !Skipped([DESCRIPTOR])
    ensures Skipped(["run.pyc"]) && !Kept(["run.pyc"])
    ensures Kept([DESCRIPTOR]) && Hashed([DESCRIPTOR]) && Kept(["i.json"])
  {
    BytecodeSuffix("run.pyc");
    assert CHECKSUM[0] == 'c' && DESCRIPTOR[9] != CHECKSUM[9];
    PythonName("e.py");
    JsonName("i.json");
    JsonName(DESCRIPTOR);
  }

  lemma CandidateKeys(p: Path)
    requires p in CandidateTree()
    ensures p == [DESCRIPTOR] || p == ["run.pyc"] || p == ["e.py"] || p == ["i.json"]
  {
  }

  lemma CandidateReviewable()
    ensures Reviewable(CandidateTree())
  {
    CandidateNames();
    var t := CandidateTree();
    forall p | p in t ensures Skipped(p) || Permitted(p) { CandidateKeys(p); }
    assert [DESCRIPTOR] in t && !Skipped([DESCRIPTOR]);
  }

  lemma CandidateFound(root: Path)
    ensures AllFound(root, CandidateTree(), UNPORTABLE) && !Portable(UNPORTABLE)
  {
    assert TopLevel("run.pyc") && TopLevel("e.py") && TopLevel("i.json");
    AllTop(root, CandidateTree(), UNPORTABLE);
    CandidateNames();
    assert UNPORTABLE.wrapper in References(UNPORTABLE);
  }

  lemma CandidateCopied()
    ensures [DESCRIPTOR] in CopyOf(CandidateTree()) && ["i.json"] in CopyOf(CandidateTree()) && TopLevel("i.json")
  {
    CandidateNames();
    assert [DESCRIPTOR] in CandidateTree() && ["i.json"] in CandidateTree();
  }

  /** What a fresh store makes of a candidate: it is sealed. */
  lemma FreshSeal(root: Path, source: Tree, d: Descriptor)
    requires Reviewable(source) && AllFound(root, source, d) && [DESCRIPTOR] in source
    requires Kept([DESCRIPTOR]) && Hashed([DESCRIPTOR])
    ensures var rules := SampleRules(d); var (next, r) := SealStep(NOTHING, root, source, d.bundle, rules);
      && r.Ok? && r.value.bundle == d.bundle && rules.digest(CopyOf(source)) == Some(r.value.digest)
      && next == NOTHING.(sealed := map[r.value := WithChecksum(CopyOf(source), r.value.digest, rules)])
  {
    assert [DESCRIPTOR] in Visible(CopyOf(source));
  }

  /** It verifies, whatever its wrapper. */
  lemma FreshVerify(s: Store, name: SealName, copy: Tree, d: Descriptor)
    requires var rules := SampleRules(d);
      && name in s.sealed && s.sealed[name] == WithChecksum(copy, name.digest, rules)
      && rules.digest(copy) == Some(name.digest)
    requires [DESCRIPTOR] in copy
    ensures VerifyResult(s, name, name.digest, SampleRules(d)) == Ok(d)
  {
    var rules := SampleRules(d);
    SampleLawful(d);
    ChecksumKeepsDigest(copy, name.digest, rules);
    WrittenReadsBack(StreamOf(copy, SampleHashing()));
    var t := s.sealed[name];
    assert [DESCRIPTOR] in t && t[[CHECKSUM]] == CharacterBytes(name.digest);
    assert rules.digest(t) == Some(name.digest);
  }

  /** And it is promoted and catalogued. */
  lemma FreshPromote(root: Path, source: Tree, d: Descriptor)
    requires SealStep(NOTHING, root, source, d.bundle, SampleRules(d)).1.Ok? && [DESCRIPTOR] in CopyOf(source)
    requires TopLevel(d.outputSchema) && [d.outputSchema] in CopyOf(source)
    requires var rules := SampleRules(d); var (next, r) := SealStep(NOTHING, root, source, d.bundle, rules);
      && rules.digest(CopyOf(source)) == Some(r.value.digest)
      && next == NOTHING.(sealed := map[r.value := WithChecksum(CopyOf(source), r.value.digest, rules)])
    ensures var rules := SampleRules(d);
      var (sealed, r) := SealStep(NOTHING, root, source, d.bundle, rules);
      var (last, p) := PromoteStep(sealed, r.value, r.value.digest, rules);
      && p.Ok? && CatalogSound(last, rules)
      && last.catalog == Some(map[CatalogKey(d.bundle) := Entry(d.bundle, r.value.digest)])
  {
    var rules := SampleRules(d);
    SampleLawful(d);
    var (sealed, r) := SealStep(NOTHING, root, source, d.bundle, rules);
    FreshVerify(sealed, r.value, CopyOf(source), d);
    TopName(SealedPath(r.value, rules), d.outputSchema);
    assert Found(SealedPath(r.value, rules), sealed.sealed[r.value], d.outputSchema);
    ChecksumKeepsDigest(CopyOf(source), r.value.digest, rules);
    FirstPlaceSoundIff(sealed, d.bundle, sealed.sealed[r.value], r.value.digest, rules);
  }

  lemma NowRefused(root: Path, source: Tree, d: Descriptor)
    requires var rules := SampleRules(d); var (sealed, r) := SealStep(NOTHING, root, source, d.bundle, rules);
      r.Ok? && PromoteStep(sealed, r.value, r.value.digest, rules).1.Ok?
    requires Describe(source, SampleRules(d)) == Some(d) && !Portable(d)
    ensures var rules := SampleRules(d); var (sealed, r) := SealStep(NOTHING, root, source, d.bundle, rules);
      Resolve(PromoteStep(sealed, r.value, r.value.digest, rules).0, d.bundle, rules) == Err(MissingReference)
  {
    var rules := SampleRules(d);
    SampleLawful(d);
    var (sealed, r) := SealStep(NOTHING, root, source, d.bundle, rules);
    assert sealed.promoted == map[] by { SealKeepsPromoted(NOTHING, root, source, d.bundle, rules); }
    CandidateResolvesIff(NOTHING, root, source, d.bundle, [], [], rules);
  }

  /**
   The candidate is sealed, promoted and catalogued, without tampering or an installation, and is
   then refused by resolution.
   */
  lemma PromotedButNotResolved(root: Path)
    ensures var rules := SampleRules(UNPORTABLE);
      var (sealed, r) := SealStep(NOTHING, root, CandidateTree(), CANDIDATE, rules);
      && r.Ok?
      && var (last, p) := PromoteStep(sealed, r.value, r.value.digest, rules);
      && p.Ok? && CatalogSound(last, rules)
      && last.catalog == Some(map[CatalogKey(CANDIDATE) := Entry(CANDIDATE, r.value.digest)])
      && Resolve(last, CANDIDATE, rules) == Err(MissingReference)
  {
    var rules, source := SampleRules(UNPORTABLE), CandidateTree();
    SampleLawful(UNPORTABLE);
    CandidateNames();
    CandidateReviewable();
    CandidateFound(root);
    CandidateCopied();
    FreshSeal(root, source, UNPORTABLE);
    FreshPromote(root, source, UNPORTABLE);
    NowRefused(root, source, UNPORTABLE);
  }

  // ---------------------------------------------------------------------------
  // A hashed file that installation does not copy
  // ---------------------------------------------------------------------------

  const SHIPPED := Descriptor(CANDIDATE, "e.py", "e.py", "i.json", "i.json")

  /** A module beneath a directory that is named like bytecode. */
  function UnpinnedTree(): Tree {
    map[[DESCRIPTOR] := [], ["e.py"] := [], ["i.json"] := [], ["a.pyc", "b.py"] := []]
  }

  /** With the checksum file that a repository contract carries. */
  ghost function ShippedTree(): Tree {
    WithChecksum(UnpinnedTree(), Characters(StreamOf(UnpinnedTree(), SampleHashing())), SampleRules(SHIPPED))
  }

  /** A file beneath a directory whose name ends in `.pyc` is hashed but not copied. */
  lemma BeneathBytecode(directory: string, name: string)
    requires Text.EndsWith(directory, BYTECODE) && directory[0] != '_'
    requires Text.EndsWith(name, ".py") && |name| > 3 && name[0] != '_' && name != CHECKSUM
    ensures Hashed([directory, name]) && !Kept([directory, name])
  {
    PythonName(name);
    assert Name([directory, name]) == name == Name([name]);
    assert CACHE[0] == '_' && [directory, name][0] == directory;
  }

  lemma ShippedFaithless()
    ensures !Faithful(ShippedTree())
  {
    BeneathBytecode("a.pyc", "b.py");
    assert ["a.pyc", "b.py"] in ShippedTree();
  }

  lemma StillFound(root: Path, t: Tree, d: Descriptor, content: Bytes)
    requires AllFound(root, t, d)
    ensures AllFound(root, t[[CHECKSUM] := content], d)
  {
    forall f | f in References(d) ensures Found(root, t[[CHECKSUM] := content], f) { assert Found(root, t, f); }
  }

  lemma UnpinnedFound(root: Path)
    ensures AllFound(root, UnpinnedTree(), SHIPPED)
  {
    assert TopLevel("e.py") && TopLevel("i.json");
    AllTop(root, UnpinnedTree(), SHIPPED);
  }

  lemma ShortFramable(p: Path)
    requires RealPath(p) && |Slashed(p)| <= 20000
    ensures FramableFile(File(p, []), SampleHashing())
  {
    assert Power(8) == 256 * Power(7) && Power(7) == 256 * Power(6);
    assert |WideBytes(Slashed(p))| == 3 * |Slashed(p)|;
  }

  lemma ShippedPaths()
    ensures RealPath([DESCRIPTOR]) && RealPath(["e.py"]) && RealPath(["i.json"]) && RealPath(["a.pyc", "b.py"])
    ensures |Slashed([DESCRIPTOR])| <= 20000 && |Slashed(["e.py"])| <= 20000 && |Slashed(["i.json"])| <= 20000
    ensures |Slashed(["a.pyc", "b.py"])| <= 20000
  {
    assert ["a.pyc", "b.py"][1..] == ["b.py"];
    assert Text.Join("/", ["b.py"]) == "b.py";
  }

  lemma UnpinnedKeys(p: Path)
    requires p in UnpinnedTree()
    ensures p == [DESCRIPTOR] || p == ["e.py"] || p == ["i.json"] || p == ["a.pyc", "b.py"]
    ensures UnpinnedTree()[p] == []
  {
  }

  lemma ChecksumFramable(t: Tree, content: Bytes, h: Hashing)
    requires FramableTree(t, h)
    ensures FramableTree(t[[CHECKSUM] := content], h)
  {
    ChecksumNotHashed();
  }

  /** Every file name is real and every length fits. */
  lemma ShippedFramable()
    ensures FramableTree(ShippedTree(), SampleHashing())
  {
    var t := UnpinnedTree();
    forall p | p in t && Hashed(p) ensures FramableFile(File(p, t[p]), SampleHashing()) {
      UnpinnedKeys(p);
      ShippedPaths();
      ShortFramable(p);
    }
    ChecksumFramable(t, CharacterBytes(Characters(StreamOf(t, SampleHashing()))), SampleHashing());
  }

  /** A tree that is given the checksum file of its digest. */
  lemma GivenChecksum(t: Tree, d: Descriptor)
    requires exists p :: p in t && Hashed(p)
    ensures var rules := SampleRules(d); var pinned := WithChecksum(t, Characters(StreamOf(t, SampleHashing())), rules);
      [CHECKSUM] in pinned && rules.digest(pinned) == Some(rules.read(pinned[[CHECKSUM]]))
  {
    var h := SampleHashing();
    var p :| p in t && Hashed(p);
    assert p in Visible(t);
    SampleLawful(d);
    ChecksumKeepsDigest(t, Characters(StreamOf(t, h)), SampleRules(d));
    WrittenReadsBack(StreamOf(t, h));
  }

  lemma FreshInstall(root: Path, source: Tree, d: Descriptor)
    requires AllFound(root, source, d) && [DESCRIPTOR] in source && [CHECKSUM] in source
    requires var rules := SampleRules(d); rules.digest(source) == Some(rules.read(source[[CHECKSUM]]))
    ensures InstallStep(NOTHING, root, source, d.bundle, SampleRules(d)).1.Ok?
  {
  }

  /**
   The repository contract is installed and catalogued, but the catalog gives the digest of the
   source and the installed tree has another; resolution refuses it.
   */
  lemma InstalledButUnsound(root: Path)
    ensures var rules := SampleRules(SHIPPED);
      var (last, r) := InstallStep(NOTHING, root, ShippedTree(), CANDIDATE, rules);
      && r.Ok? && CatalogSound(NOTHING, rules) && !CatalogSound(last, rules)
      && Resolve(last, CANDIDATE, rules).Err?
  {
    var rules, source := SampleRules(SHIPPED), ShippedTree();
    SampleLawful(SHIPPED);
    UnpinnedFound(root);
    StillFound(root, UnpinnedTree(), SHIPPED, source[[CHECKSUM]]);
    CandidateNames();
    assert [DESCRIPTOR] in UnpinnedTree() && Hashed([DESCRIPTOR]);
    GivenChecksum(UnpinnedTree(), SHIPPED);
    ShippedFramable();
    ShippedFaithless();
    FreshInstall(root, source, SHIPPED);
    InstallSoundIff(NOTHING, root, source, CANDIDATE, rules);
    InstalledResolvesIff(NOTHING, root, source, CANDIDATE, [], rules);
  }
}
