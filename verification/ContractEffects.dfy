/**
 When the operations of the contract store succeed and what they leave behind (contract_candidates.py
 and contracts.py), and which files of a bundle its digest depends on.
 */
module ContractEffects {
  import opened Wrappers
  import opened ContractDigest
  import opened ContractReferences
  import opened ContractStore
  import opened ContractResolution
  import opened PosixPath
  import Text

  // ---------------------------------------------------------------------------
  // What the digest depends on
  // ---------------------------------------------------------------------------

  /** Not hashed: the checksum file, anything in a bytecode cache, and bytecode by its suffix. */
  predicate Ignorable(p: Path) {
    p == [] || p[|p| - 1] == "contract.sha256" || "__pycache__" in p ||
    (Text.EndsWith(p[|p| - 1], ".pyc") && p[|p| - 1] != ".pyc")
  }

  lemma IgnorableIff(p: Path)
    ensures Ignorable(p) <==> !Hashed(p)
  {
  }

  /** Writing or changing such a file never changes the digest. */
  lemma IgnorableKeepsDigest(t: Tree, p: Path, content: Bytes, h: Hashing)
    requires Ignorable(p)
    ensures DigestOf(t[p := content], h) == DigestOf(t, h)
  {
    IgnorableIff(p);
    UnhashedFileIgnored(t, p, content, h);
  }

  /** Writing or changing any other file always changes the bytes that are hashed. */
  lemma OtherFilesCount(t: Tree, p: Path, content: Bytes, h: Hashing)
    requires !Ignorable(p) && (p !in t || t[p] != content)
    requires Utf8Injective(h) && FramableTree(t, h) && FramableFile(File(p, content), h)
    ensures StreamOf(t[p := content], h) != StreamOf(t, h)
  {
    IgnorableIff(p);
    var u := t[p := content];
    assert p in Visible(u) && Visible(u)[p] == content;
    StreamDeterminesTree(u, t, h);
  }

  /** A bundle without any file that counts has no digest. */
  lemma DigestNeedsContent(t: Tree, h: Hashing)
    ensures DigestOf(t, h).Some? <==> exists p :: p in t && !Ignorable(p)
  {
    forall p ensures Ignorable(p) <==> !Hashed(p) { IgnorableIff(p); }
    if p :| p in t && !Ignorable(p) { assert p in Visible(t); }
    if Visible(t) != map[] {
      var p :| p in Visible(t);
      assert p in t && !Ignorable(p);
    }
  }

  /** The number whose most significant byte comes first. */
  function Number(b: Bytes): nat {
    if b == [] then 0 else 256 * Number(b[..|b| - 1]) + b[|b| - 1]
  }

  lemma {:induction false} BigEndianIs(n: nat, k: nat)
    requires n < Power(k)
    ensures Number(BigEndian(n, k)) == n
  {
    if k > 0 {
      BigEndianIs(n / 256, k - 1);
      assert BigEndian(n, k)[..k - 1] == BigEndian(n / 256, k - 1);
    }
  }

  /** A copy leaves out a file exactly if some component of its path is a cache or ends in `.pyc`. */
  lemma CopiedIff(t: Tree, p: Path)
    requires p in t
    ensures p in CopyOf(t) <==> forall c :: c in p ==> c != "__pycache__" && !Text.EndsWith(c, ".pyc")
    ensures p in CopyOf(t) ==> CopyOf(t)[p] == t[p]
  {
    if forall c :: c in p ==> c != "__pycache__" && !Text.EndsWith(c, ".pyc") {
      forall i | 0 <= i < |p| ensures p[i] != CACHE && !Text.EndsWith(p[i], BYTECODE) { assert p[i] in p; }
    }
  }

  /** A field names a file by a plain relative path: not absolute, nowhere upwards, and not the root. */
  lemma SafeFieldIff(field: string)
    ensures SafeRelative(field).Some? <==>
      && (field == "" || field[0] != '/') && ".." !in Text.Split(field, '/')
      && exists part :: part in Text.Split(field, '/') && part != "" && part != "."
    ensures SafeRelative(field).Some? ==>
      forall part :: part in SafeRelative(field).value <==> part in Text.Split(field, '/') && part != "" && part != "."
  {
    var parts := PathParts(field);
    assert forall p :: p in parts <==> p in Text.Split(field, '/') && NamedPart(p);
    if parts != [] { assert parts[0] in parts; }
  }

  // ---------------------------------------------------------------------------
  // Sealing
  // ---------------------------------------------------------------------------

  /** A descriptor of this identity whose files are all found. */
  ghost predicate Described(root: Path, t: Tree, bundle: Bundle, rules: Rules) {
    && ["contract.json"] in t && rules.parse(t[["contract.json"]]).Some?
    && var d := rules.parse(t[["contract.json"]]).value;
    && d.bundle == bundle
    && Found(root, t, d.wrapper) && Found(root, t, d.entryPoint)
    && Found(root, t, d.inputSchema) && Found(root, t, d.outputSchema)
  }

  lemma DescribedIff(root: Path, t: Tree, bundle: Bundle, rules: Rules)
    ensures CheckDescriptor(root, t, bundle, rules).None? <==> Described(root, t, bundle, rules)
  {
    if Describes(t, bundle, rules) {
      var d := Describe(t, rules).value;
      assert References(d)[0] == d.wrapper && References(d)[1] == d.entryPoint;
      assert References(d)[2] == d.inputSchema && References(d)[3] == d.outputSchema;
      assert AllFound(root, t, d) <==>
        Found(root, t, d.wrapper) && Found(root, t, d.entryPoint) && Found(root, t, d.inputSchema)
        && Found(root, t, d.outputSchema);
    }
  }

  /** Sealing succeeds exactly for a reviewable, valid source whose copy has content. */
  lemma SealsIff(s: Store, root: Path, source: Tree, bundle: Bundle, rules: Rules)
    ensures SealStep(s, root, source, bundle, rules).1.Ok? <==>
      && Reviewable(source) && rules.withinLimits(source) && Described(root, source, bundle, rules)
      && rules.candidateValid(source) && rules.digest(CopyOf(source)).Some?
  {
    DescribedIff(root, source, bundle, rules);
  }

  lemma ChecksumBeside(t: Tree, rules: Rules)
    ensures forall digest :: WithChecksum(t, digest, rules) == t[["contract.sha256"] := rules.write(digest)]
  {
  }

  lemma SealNamed(s: Store, root: Path, source: Tree, bundle: Bundle, rules: Rules)
    ensures var (next, r) := SealStep(s, root, source, bundle, rules);
      && (r.Err? ==> next == s)
      && (r.Ok? ==> next == s.(sealed := next.sealed) && r.value.bundle == bundle)
      && (r.Ok? ==> rules.digest(CopyOf(source)) == Some(r.value.digest))
  {
  }

  lemma SealAdds(s: Store, root: Path, source: Tree, bundle: Bundle, rules: Rules)
    ensures var (next, r) := SealStep(s, root, source, bundle, rules);
      && (r.Ok? && r.value in s.sealed ==> next.sealed == s.sealed)
      && (r.Ok? && r.value !in s.sealed ==>
            next.sealed == s.sealed[r.value := WithChecksum(CopyOf(source), r.value.digest, rules)])
  {
  }

  /** Then the copy with its checksum file lies in the sealed area under its digest, unless a seal did. */
  lemma SealLeaves(s: Store, root: Path, source: Tree, bundle: Bundle, rules: Rules)
    ensures var (next, r) := SealStep(s, root, source, bundle, rules);
      && next.promoted == s.promoted && next.catalog == s.catalog
      && (r.Err? ==> next.sealed == s.sealed)
      && (r.Ok? ==>
            && r.value.bundle == bundle && Some(r.value.digest) == rules.digest(CopyOf(source))
            && next.sealed ==
               if r.value in s.sealed then s.sealed
               else s.sealed[r.value := CopyOf(source)[["contract.sha256"] := rules.write(r.value.digest)]])
  {
    SealNamed(s, root, source, bundle, rules);
    SealAdds(s, root, source, bundle, rules);
    ChecksumBeside(CopyOf(source), rules);
  }

  // ---------------------------------------------------------------------------
  // Promotion and installation
  // ---------------------------------------------------------------------------

  /** The seal is there, records its digest, which is the expected one, and can be read. */
  ghost predicate Verifies(s: Store, name: SealName, expected: string, rules: Rules) {
    && name in s.sealed && ["contract.sha256"] in s.sealed[name]
    && rules.digest(s.sealed[name]) == Some(expected) && rules.read(s.sealed[name][["contract.sha256"]]) == expected
    && ["contract.json"] in s.sealed[name] && rules.parse(s.sealed[name][["contract.json"]]).Some?
  }

  lemma VerifiesIff(s: Store, name: SealName, expected: string, rules: Rules)
    ensures VerifyResult(s, name, expected, rules).Ok? <==> Verifies(s, name, expected, rules)
    ensures VerifyResult(s, name, expected, rules).Ok? ==>
      Some(VerifyResult(s, name, expected, rules).value) == rules.parse(s.sealed[name][["contract.json"]])
  {
  }

  /** The destination is free, or holds a bundle of the same digest; and the catalog can be written. */
  ghost predicate CanPlace(s: Store, bundle: Bundle, digest: string, rules: Rules) {
    && (bundle in s.promoted ==> rules.digest(s.promoted[bundle]) == Some(digest))
    && rules.insideMount && s.catalog.Some?
  }

  /** What a placement leaves: the tree at its destination if that was free, and its catalog entry. */
  ghost predicate Placed(s: Store, next: Store, bundle: Bundle, t: Tree, digest: string) {
    && next.sealed == s.sealed
    && next.promoted == (if bundle in s.promoted then s.promoted else s.promoted[bundle := t])
    && s.catalog.Some?
    && next.catalog == Some(s.catalog.value[bundle.id + "@" + bundle.version := Entry(bundle, digest)])
  }

  lemma PlacesIff(s: Store, bundle: Bundle, t: Tree, digest: string, rules: Rules)
    ensures var (next, r) := PlaceStep(s, bundle, t, digest, rules);
      && (r.Ok? <==> CanPlace(s, bundle, digest, rules))
      && (r.Ok? ==> r.value == bundle && Placed(s, next, bundle, t, digest))
      && (r.Err? ==>
            && next.sealed == s.sealed && next.catalog == s.catalog
            && (next.promoted == s.promoted || next.promoted == s.promoted[bundle := t]))
  {
  }

  /** Promotion succeeds exactly for a seal that verifies, with its schema, and a destination that can take it. */
  lemma PromotesIff(s: Store, name: SealName, expected: string, rules: Rules)
    ensures var (next, r) := PromoteStep(s, name, expected, rules);
      && (r.Ok? <==>
            && Verifies(s, name, expected, rules)
            && var d := rules.parse(s.sealed[name][["contract.json"]]).value;
            && Found(SealedPath(name, rules), s.sealed[name], d.outputSchema)
            && rules.promotable(s.sealed[name]) && CanPlace(s, d.bundle, expected, rules))
      && (r.Ok? ==>
            Placed(s, next, rules.parse(s.sealed[name][["contract.json"]]).value.bundle, s.sealed[name], expected))
  {
    VerifiesIff(s, name, expected, rules);
    var v := VerifyResult(s, name, expected, rules);
    if v.Ok? { PlacesIff(s, v.value.bundle, s.sealed[name], expected, rules); }
  }

  /** Installation succeeds exactly for a described, valid source with its own digest and such a destination. */
  lemma InstallsIff(s: Store, root: Path, source: Tree, bundle: Bundle, rules: Rules)
    ensures var (next, r) := InstallStep(s, root, source, bundle, rules);
      && (r.Ok? <==>
            && Described(root, source, bundle, rules) && rules.repositoryValid(source)
            && ["contract.sha256"] in source
            && rules.digest(source) == Some(rules.read(source[["contract.sha256"]]))
            && CanPlace(s, bundle, rules.digest(source).value, rules))
      && (r.Ok? ==> Placed(s, next, bundle, CopyOf(source), rules.digest(source).value))
  {
    DescribedIff(root, source, bundle, rules);
    if rules.digest(source).Some? { PlacesIff(s, bundle, CopyOf(source), rules.digest(source).value, rules); }
  }

  // ---------------------------------------------------------------------------
  // Resolution
  // ---------------------------------------------------------------------------

  /** The bundle holds the file that a field names by a plain relative path. */
  predicate HasFile(t: Tree, field: string) { SafeRelative(field).Some? && SafeRelative(field).value in t }

  /** Resolution succeeds exactly for a bundle in place that describes itself, holds its files and has its digest. */
  lemma ResolvesIff(s: Store, bundle: Bundle, rules: Rules, digest: string)
    ensures Resolve(s, bundle, rules) == Ok(digest) <==>
      && bundle in s.promoted
      && var t := s.promoted[bundle];
      && ["contract.sha256"] in t && ["contract.json"] in t && rules.parse(t[["contract.json"]]).Some?
      && var d := rules.parse(t[["contract.json"]]).value;
      && d.bundle == bundle
      && HasFile(t, d.wrapper) && HasFile(t, d.entryPoint) && HasFile(t, d.inputSchema) && HasFile(t, d.outputSchema)
      && rules.digest(t) == Some(digest) && rules.lower(rules.read(t[["contract.sha256"]])) == digest
  {
    if bundle in s.promoted && Describes(s.promoted[bundle], bundle, rules) {
      HoldsIff(s.promoted[bundle], Describe(s.promoted[bundle], rules).value);
    }
  }

  lemma HoldsIff(t: Tree, d: Descriptor)
    ensures Holds(t, d) <==>
      HasFile(t, d.wrapper) && HasFile(t, d.entryPoint) && HasFile(t, d.inputSchema) && HasFile(t, d.outputSchema)
  {
    assert References(d)[0] == d.wrapper && References(d)[1] == d.entryPoint;
    assert References(d)[2] == d.inputSchema && References(d)[3] == d.outputSchema;
  }
}
