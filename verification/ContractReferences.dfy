/**
 The files a contract descriptor names (contracts.py, _safe_contract_relative_path and resolve;
 contract_candidates.py, _validate_source_tree, _validate_descriptor and _read_sealed_output_schema):
 where they are looked for before sealing and when a bundle is resolved, and which of them a copy
 that ignores bytecode still holds.
 */
module ContractReferences {
  import opened Wrappers
  import opened ContractDigest
  import opened PosixPath
  import Text

  datatype Bundle = Bundle(id: string, version: string)

  /** Only the fields the store reads; the last four name files of the bundle. */
  datatype Descriptor = Descriptor(
    bundle: Bundle, wrapper: string, entryPoint: string, inputSchema: string, outputSchema: string)

  function References(d: Descriptor): seq<string> { [d.wrapper, d.entryPoint, d.inputSchema, d.outputSchema] }

  const DESCRIPTOR := "contract.json"

  predicate Absolute(path: string) { path != "" && path[0] == '/' }

  /** _safe_contract_relative_path. */
  function SafeRelative(field: string): Option<Path> {
    if Absolute(field) || ".." in PathParts(field) || PathParts(field) == [] then None else Some(PathParts(field))
  }

  /** `Path.resolve()` where there are no symbolic links. */
  function Walk(at: Path, parts: Path): Path
    decreases |parts|
  {
    if parts == [] then at
    else if parts[0] == ".." then Walk(if at == [] then [] else at[..|at| - 1], parts[1..])
    else Walk(at + [parts[0]], parts[1..])
  }

  /** `(root / field).resolve()`, relative to the root if it is beneath it. */
  function Located(root: Path, field: string): Option<Path> {
    var target := Walk(if Absolute(field) then [] else root, PathParts(field));
    if root < target then Some(target[|root|..]) else None
  }

  predicate Found(root: Path, t: Tree, field: string) {
    Located(root, field).Some? && Located(root, field).value in t
  }

  /** What sealing and installation ask of a descriptor: its files are in the source. */
  predicate AllFound(root: Path, t: Tree, d: Descriptor) {
    forall f :: f in References(d) ==> Found(root, t, f)
  }

  /** What resolution asks of it: its files are in the bundle, and named by plain relative paths. */
  predicate Holds(t: Tree, d: Descriptor) {
    forall f :: f in References(d) ==> SafeRelative(f).Some? && SafeRelative(f).value in t
  }

  /** Plain relative paths that a copy does not ignore: a condition on the descriptor alone. */
  predicate Portable(d: Descriptor) {
    forall f :: f in References(d) ==> SafeRelative(f).Some? && Kept(SafeRelative(f).value)
  }

  lemma {:induction false} WalkDown(at: Path, parts: Path)
    requires ".." !in parts
    ensures Walk(at, parts) == at + parts
    decreases |parts|
  {
    if parts != [] {
      WalkDown(at + [parts[0]], parts[1..]);
      assert at + [parts[0]] + parts[1..] == at + parts;
    }
  }

  /** A plain relative path is located at itself, wherever the bundle lies. */
  lemma SafeIsLocated(root: Path, field: string)
    requires SafeRelative(field).Some?
    ensures Located(root, field) == SafeRelative(field)
  {
    WalkDown(root, PathParts(field));
  }

  /** Of a bundle whose files were found in the source, the copy holds all if and only if they are portable. */
  lemma CopyHoldsIff(root: Path, source: Tree, d: Descriptor)
    requires AllFound(root, source, d)
    ensures Holds(CopyOf(source), d) <==> Portable(d)
  {
    forall f | f in References(d) && SafeRelative(f).Some?
      ensures SafeRelative(f).value in CopyOf(source) <==> Kept(SafeRelative(f).value)
    {
      SafeIsLocated(root, f);
      assert Found(root, source, f);
    }
  }

  // ---------------------------------------------------------------------------
  // Source trees of candidates
  // ---------------------------------------------------------------------------

  const ALLOWED_SUFFIXES: set<string> := {".json", ".md", ".py", ".txt", ".yaml", ".yml"}

  /** `PurePath(name).suffix` is one of them. */
  predicate AllowedName(name: string) {
    exists suffix :: suffix in ALLOWED_SUFFIXES && Text.EndsWith(name, suffix) && name != suffix
  }

  /** Bytecode caches are passed over. */
  predicate Skipped(p: Path) { CACHE in p || BytecodeName(Name(p)) }

  predicate Permitted(p: Path) { Name(p) != CHECKSUM && AllowedName(Name(p)) }

  /** _validate_source_tree, but for the limits on size and symbolic links. */
  predicate Reviewable(t: Tree) {
    && (forall p :: p in t && !Skipped(p) ==> Permitted(p))
    && exists p :: p in t && !Skipped(p)
  }

  /** Writing the checksum file adds nothing that a candidate's descriptor could have named. */
  lemma ChecksumAddsNoReference(root: Path, source: Tree, d: Descriptor, content: Bytes)
    requires Reviewable(source) && AllFound(root, source, d)
    ensures Holds(CopyOf(source)[[CHECKSUM] := content], d) <==> Holds(CopyOf(source), d)
  {
    ChecksumIsKept();
    forall f | f in References(d) && SafeRelative(f).Some? ensures SafeRelative(f).value != [CHECKSUM] {
      SafeIsLocated(root, f);
      assert Found(root, source, f);
      assert !Permitted([CHECKSUM]);
    }
  }

  lemma ChecksumIsKept()
    ensures Kept([CHECKSUM]) && !Skipped([CHECKSUM])
  {
    assert CHECKSUM[0] != CACHE[0];
    assert CHECKSUM[|CHECKSUM| - 1] != BYTECODE[|BYTECODE| - 1];
    assert !Text.EndsWith(CHECKSUM, BYTECODE);
  }

  lemma DescriptorIsKept()
    ensures Kept([DESCRIPTOR]) && DESCRIPTOR != CHECKSUM
  {
    assert DESCRIPTOR[0] != CACHE[0];
    assert DESCRIPTOR[|DESCRIPTOR| - 1] != BYTECODE[|BYTECODE| - 1];
    assert DESCRIPTOR[|DESCRIPTOR| - 1] != CHECKSUM[|CHECKSUM| - 1];
    assert !Text.EndsWith(DESCRIPTOR, BYTECODE);
  }

  /** The descriptor is among the files that are copied. */
  lemma DescriptorCopied(t: Tree, content: Bytes)
    ensures [DESCRIPTOR] in CopyOf(t) <==> [DESCRIPTOR] in t
    ensures [DESCRIPTOR] in t ==> CopyOf(t)[[DESCRIPTOR]] == t[[DESCRIPTOR]]
    ensures [DESCRIPTOR] in CopyOf(t)[[CHECKSUM] := content] <==> [DESCRIPTOR] in t
    ensures [DESCRIPTOR] in t ==> CopyOf(t)[[CHECKSUM] := content][[DESCRIPTOR]] == t[[DESCRIPTOR]]
  {
    DescriptorIsKept();
  }
}
