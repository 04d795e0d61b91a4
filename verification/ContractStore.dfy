/**
 Sealing, promoting and installing contract bundles (contract_candidates.py): what every operation
 keeps, over all runs, of the promoted trees and of the catalog that points at them.
 */
module ContractStore {
  import opened Wrappers
  import opened ContractDigest
  import opened ContractReferences

  datatype SealName = SealName(bundle: Bundle, digest: string)

  datatype Entry = Entry(bundle: Bundle, digest: string)

  datatype Failure =
    | BadSource
    | BadDescriptor
    | BadRequirements
    | MissingReference
    | NoContent
    | NoChecksum
    | NoSuchSeal
    | NotInstalled
    | DigestMismatch
    | VersionTaken
    | OutsideMount
    | BadCatalog

  /**
   What the store takes from elsewhere: hashing and the tree digest made from it, parsing a
   descriptor, the size limits of a source tree, the validations of what a descriptor says, writing
   and reading a checksum file, `str.lower`, the place of the sealed area, and whether bundles live
   under the shared mount.
   */
  datatype Rules = Rules(
    hashing: Hashing,
    digest: Tree -> Option<string>,
    parse: Bytes -> Option<Descriptor>,
    withinLimits: Tree -> bool,
    candidateValid: Tree -> bool,
    repositoryValid: Tree -> bool,
    promotable: Tree -> bool,
    write: string -> Bytes,
    read: Bytes -> string,
    lower: string -> string,
    sealedRoot: Path,
    insideMount: bool)

  /** `catalog` is `None` when its file does not hold a JSON object. */
  datatype Store = Store(sealed: map<SealName, Tree>, promoted: map<Bundle, Tree>, catalog: Option<map<string, Entry>>)

  type Outcome<T> = Result<T, Failure>

  function CatalogKey(b: Bundle): string { b.id + "@" + b.version }

  /** The digest is the one compute_contract_digest gives, in lower case. */
  ghost predicate DigestsTrees(rules: Rules) {
    && (forall t :: rules.digest(t) == DigestOf(t, rules.hashing))
    && forall b :: rules.lower(rules.hashing.sha(b)) == rules.hashing.sha(b)
  }

  /** What `contract.json` says, if it is there and can be read. */
  function Describe(t: Tree, rules: Rules): Option<Descriptor> {
    if [DESCRIPTOR] in t then rules.parse(t[[DESCRIPTOR]]) else None
  }

  predicate Describes(t: Tree, bundle: Bundle, rules: Rules) {
    Describe(t, rules).Some? && Describe(t, rules).value.bundle == bundle
  }

  /** The identity of the descriptor and the files it names, as _validate_descriptor checks them. */
  function CheckDescriptor(root: Path, t: Tree, bundle: Bundle, rules: Rules): Option<Failure> {
    if !Describes(t, bundle, rules) then Some(BadDescriptor)
    else if !AllFound(root, t, Describe(t, rules).value) then Some(MissingReference)
    else None
  }

  /** Where a sealed candidate lies. */
  function SealedPath(name: SealName, rules: Rules): Path {
    rules.sealedRoot + [name.bundle.id, name.bundle.version, name.digest]
  }

  function WithChecksum(t: Tree, digest: string, rules: Rules): Tree { t[[CHECKSUM] := rules.write(digest)] }

  // ---------------------------------------------------------------------------
  // The operations, as steps
  // ---------------------------------------------------------------------------

  function SealStep(s: Store, root: Path, source: Tree, bundle: Bundle, rules: Rules): (Store, Outcome<SealName>) {
    if !Reviewable(source) || !rules.withinLimits(source) then (s, Err(BadSource))
    else if CheckDescriptor(root, source, bundle, rules).Some? then
      (s, Err(CheckDescriptor(root, source, bundle, rules).value))
    else if !rules.candidateValid(source) then (s, Err(BadRequirements))
    else
      match rules.digest(CopyOf(source))
      case None => (s, Err(NoContent))
      case Some(digest) =>
        var name := SealName(bundle, digest);
        if name in s.sealed then (s, Ok(name))
        else (s.(sealed := s.sealed[name := WithChecksum(CopyOf(source), digest, rules)]), Ok(name))
  }

  /** verify_seal: the tree, its own checksum file and the expected digest all agree. */
  function VerifyResult(s: Store, name: SealName, expected: string, rules: Rules): Outcome<Descriptor> {
    if name !in s.sealed then Err(NoSuchSeal)
    else
      var t := s.sealed[name];
      if [CHECKSUM] !in t then Err(NoChecksum)
      else
        match rules.digest(t)
        case None => Err(NoContent)
        case Some(actual) =>
          if rules.read(t[[CHECKSUM]]) != expected || actual != expected then Err(DigestMismatch)
          else
            match Describe(t, rules)
            case None => Err(BadDescriptor)
            case Some(d) => Ok(d)
  }

  function CatalogStep(s: Store, bundle: Bundle, digest: string, rules: Rules): (Store, Outcome<Bundle>) {
    if !rules.insideMount then (s, Err(OutsideMount))
    else
      match s.catalog
      case None => (s, Err(BadCatalog))
      case Some(entries) =>
        (s.(catalog := Some(entries[CatalogKey(bundle) := Entry(bundle, digest)])), Ok(bundle))
  }

  /** A promoted version is only ever created; a second bundle under its name must have its digest. */
  function PlaceStep(s: Store, bundle: Bundle, t: Tree, digest: string, rules: Rules): (Store, Outcome<Bundle>) {
    if bundle in s.promoted then
      match rules.digest(s.promoted[bundle])
      case None => (s, Err(NoContent))
      case Some(existing) =>
        if existing != digest then (s, Err(VersionTaken)) else CatalogStep(s, bundle, digest, rules)
    else CatalogStep(s.(promoted := s.promoted[bundle := t]), bundle, digest, rules)
  }

  function PromoteStep(s: Store, name: SealName, expected: string, rules: Rules): (Store, Outcome<Bundle>) {
    match VerifyResult(s, name, expected, rules)
    case Err(e) => (s, Err(e))
    case Ok(d) =>
      if !Found(SealedPath(name, rules), s.sealed[name], d.outputSchema) then (s, Err(MissingReference))
      else if !rules.promotable(s.sealed[name]) then (s, Err(BadRequirements))
      else PlaceStep(s, d.bundle, s.sealed[name], expected, rules)
  }

  function InstallStep(s: Store, root: Path, source: Tree, bundle: Bundle, rules: Rules): (Store, Outcome<Bundle>) {
    if CheckDescriptor(root, source, bundle, rules).Some? then
      (s, Err(CheckDescriptor(root, source, bundle, rules).value))
    else if !rules.repositoryValid(source) then (s, Err(BadRequirements))
    else if [CHECKSUM] !in source then (s, Err(NoChecksum))
    else
      match rules.digest(source)
      case None => (s, Err(NoContent))
      case Some(actual) =>
        if rules.read(source[[CHECKSUM]]) != actual then (s, Err(DigestMismatch))
        else PlaceStep(s, bundle, CopyOf(source), actual, rules)
  }

  // ---------------------------------------------------------------------------
  // The store in place
  // ---------------------------------------------------------------------------

  class ContractManager {
    const rules: Rules
    var sealed: map<SealName, Tree>
    var promoted: map<Bundle, Tree>
    var catalog: Option<map<string, Entry>>

    constructor (rules: Rules)
      requires DigestsTrees(rules)
      ensures this.rules == rules && View() == Store(map[], map[], Some(map[]))
    {
      this.rules := rules;
      sealed, promoted, catalog := map[], map[], Some(map[]);
    }

    ghost function View(): Store
      reads this
    {
      Store(sealed, promoted, catalog)
    }

    method Seal(root: Path, source: Tree, bundle: Bundle) returns (r: Outcome<SealName>)
      requires DigestsTrees(rules)
      modifies this`sealed
      ensures (View(), r) == SealStep(old(View()), root, source, bundle, rules)
    {
      if !Reviewable(source) || !rules.withinLimits(source) { return Err(BadSource); }
      var refusal := CheckDescriptor(root, source, bundle, rules);
      if refusal.Some? { return Err(refusal.value); }
      if !rules.candidateValid(source) { return Err(BadRequirements); }
      var staging := CopyOf(source);
      var digest := TreeDigest(staging, rules);
      if digest.None? { return Err(NoContent); }
      staging := WithChecksum(staging, digest.value, rules);
      var name := SealName(bundle, digest.value);
      if name !in sealed {
        sealed := sealed[name := staging];
      }
      r := Ok(name);
    }

    method VerifySeal(name: SealName, expected: string) returns (r: Outcome<Descriptor>)
      requires DigestsTrees(rules)
      ensures r == VerifyResult(View(), name, expected, rules)
    {
      if name !in sealed { return Err(NoSuchSeal); }
      var t := sealed[name];
      if [CHECKSUM] !in t { return Err(NoChecksum); }
      var recorded := rules.read(t[[CHECKSUM]]);
      var actual := TreeDigest(t, rules);
      if actual.None? { return Err(NoContent); }
      if recorded != expected || actual.value != expected { return Err(DigestMismatch); }
      var d := Describe(t, rules);
      if d.None? { return Err(BadDescriptor); }
      r := Ok(d.value);
    }

    method Promote(name: SealName, expected: string) returns (r: Outcome<Bundle>)
      requires DigestsTrees(rules)
      modifies this`promoted, this`catalog
      ensures (View(), r) == PromoteStep(old(View()), name, expected, rules)
    {
      var verified := VerifySeal(name, expected);
      if verified.Err? { return Err(verified.error); }
      if !Found(SealedPath(name, rules), sealed[name], verified.value.outputSchema) { return Err(MissingReference); }
      if !rules.promotable(sealed[name]) { return Err(BadRequirements); }
      r := Place(verified.value.bundle, sealed[name], expected);
    }

    method Install(root: Path, source: Tree, bundle: Bundle) returns (r: Outcome<Bundle>)
      requires DigestsTrees(rules)
      modifies this`promoted, this`catalog
      ensures (View(), r) == InstallStep(old(View()), root, source, bundle, rules)
    {
      var refusal := CheckDescriptor(root, source, bundle, rules);
      if refusal.Some? { return Err(refusal.value); }
      if !rules.repositoryValid(source) { return Err(BadRequirements); }
      if [CHECKSUM] !in source { return Err(NoChecksum); }
      var actual := TreeDigest(source, rules);
      if actual.None? { return Err(NoContent); }
      if rules.read(source[[CHECKSUM]]) != actual.value { return Err(DigestMismatch); }
      r := Place(bundle, CopyOf(source), actual.value);
    }

    /** The part that promotion and installation share: the destination, then the catalog. */
    method Place(bundle: Bundle, t: Tree, digest: string) returns (r: Outcome<Bundle>)
      requires DigestsTrees(rules)
      modifies this`promoted, this`catalog
      ensures (View(), r) == PlaceStep(old(View()), bundle, t, digest, rules)
    {
      if bundle in promoted {
        var existing := TreeDigest(promoted[bundle], rules);
        if existing.None? { return Err(NoContent); }
        if existing.value != digest { return Err(VersionTaken); }
      } else {
        promoted := promoted[bundle := t];
      }
      r := WriteCatalogEntry(bundle, digest);
    }

    method WriteCatalogEntry(bundle: Bundle, digest: string) returns (r: Outcome<Bundle>)
      modifies this`catalog
      ensures (View(), r) == CatalogStep(old(View()), bundle, digest, rules)
    {
      if !rules.insideMount { return Err(OutsideMount); }
      if catalog.None? { return Err(BadCatalog); }
      catalog := Some(catalog.value[CatalogKey(bundle) := Entry(bundle, digest)]);
      r := Ok(bundle);
    }
  }

  method TreeDigest(t: Tree, rules: Rules) returns (digest: Option<string>)
    requires DigestsTrees(rules)
    ensures digest == rules.digest(t)
  {
    var listing := ListTree(t);
    digest := ComputeDigest(listing, rules.hashing, t);
  }

  /** `rglob`: every file once, in some order. */
  method ListTree(t: Tree) returns (listing: seq<File>)
    ensures ListingOf(listing, t)
  {
    listing := [];
    var rest := t;
    while rest != map[]
      invariant rest.Keys <= t.Keys && forall p :: p in rest ==> rest[p] == t[p]
      invariant ListingOf(listing, t - rest.Keys)
      decreases |rest|
    {
      var p :| p in rest;
      ListOneMore(listing, t, rest, p);
      listing := listing + [File(p, t[p])];
      rest := rest - {p};
    }
    assert t - {} == t;
  }

  lemma ListOneMore(listing: seq<File>, t: Tree, rest: Tree, p: Path)
    requires p in rest && rest.Keys <= t.Keys && ListingOf(listing, t - rest.Keys)
    ensures ListingOf(listing + [File(p, t[p])], t - (rest - {p}).Keys)
  {
    var f := File(p, t[p]);
    var longer, u := listing + [f], t - (rest - {p}).Keys;
    forall g: File ensures multiset(longer)[g] == if g.path in u && u[g.path] == g.content then 1 else 0 {
      assert multiset(longer)[g] == multiset(listing)[g] + multiset([f])[g];
    }
  }

  // ---------------------------------------------------------------------------
  // Runs
  // ---------------------------------------------------------------------------

  /** `Drift`: someone else replaces or adds a tree in the sealed area. */
  datatype Op =
    | SealOp(root: Path, source: Tree, bundle: Bundle)
    | PromoteOp(name: SealName, expected: string)
    | InstallOp(root: Path, source: Tree, bundle: Bundle)
    | Drift(name: SealName, tree: Tree)

  function Step(s: Store, op: Op, rules: Rules): Store {
    match op
    case SealOp(root, source, bundle) => SealStep(s, root, source, bundle, rules).0
    case PromoteOp(name, expected) => PromoteStep(s, name, expected, rules).0
    case InstallOp(root, source, bundle) => InstallStep(s, root, source, bundle, rules).0
    case Drift(name, tree) => s.(sealed := s.sealed[name := tree])
  }

  function Run(s: Store, ops: seq<Op>, rules: Rules): Store
    decreases |ops|
  {
    if ops == [] then s else Run(Step(s, ops[0], rules), ops[1..], rules)
  }

  /** Every promoted tree of `s` is still there, unchanged. */
  ghost predicate KeepsPromoted(s: Store, next: Store) {
    forall b :: b in s.promoted ==> b in next.promoted && next.promoted[b] == s.promoted[b]
  }

  /** Every catalog entry names a promoted tree, under its own key, with that tree's digest. */
  ghost predicate CatalogSound(s: Store, rules: Rules) {
    s.catalog.Some? ==> forall k :: k in s.catalog.value ==>
      var e := s.catalog.value[k];
      k == CatalogKey(e.bundle) && e.bundle in s.promoted && rules.digest(s.promoted[e.bundle]) == Some(e.digest)
  }

  /** Every sealed tree is filed under its digest, with its checksum file inside. */
  ghost predicate SealsSound(s: Store, rules: Rules) {
    forall n :: n in s.sealed ==>
      && rules.digest(s.sealed[n]) == Some(n.digest)
      && [CHECKSUM] in s.sealed[n] && rules.read(s.sealed[n][[CHECKSUM]]) == n.digest
  }

  /** Reading a checksum file back gives the digest written. */
  ghost predicate ChecksumsReadBack(rules: Rules) { forall d :: rules.read(rules.write(d)) == d }

  ghost predicate FaithfulInstalls(ops: seq<Op>) {
    forall i :: 0 <= i < |ops| && ops[i].InstallOp? ==> Faithful(ops[i].source)
  }

  lemma PlaceKeeps(s: Store, bundle: Bundle, t: Tree, digest: string, rules: Rules)
    ensures var next := PlaceStep(s, bundle, t, digest, rules).0;
      KeepsPromoted(s, next) && next.sealed == s.sealed
    ensures CatalogSound(s, rules) && (bundle in s.promoted || rules.digest(t) == Some(digest)) ==>
      CatalogSound(PlaceStep(s, bundle, t, digest, rules).0, rules)
  {
  }

  lemma StepKeepsPromoted(s: Store, op: Op, rules: Rules)
    ensures KeepsPromoted(s, Step(s, op, rules))
  {
    match op
    case SealOp(_, _, _) =>
    case PromoteOp(name, expected) =>
      var v := VerifyResult(s, name, expected, rules);
      if v.Ok? { PlaceKeeps(s, v.value.bundle, s.sealed[name], expected, rules); }
    case InstallOp(_, source, bundle) =>
      var actual := rules.digest(source);
      if actual.Some? { PlaceKeeps(s, bundle, CopyOf(source), actual.value, rules); }
    case Drift(_, _) =>
  }

  lemma StepKeepsCatalog(s: Store, op: Op, rules: Rules)
    requires DigestsTrees(rules) && CatalogSound(s, rules) && (op.InstallOp? ==> Faithful(op.source))
    ensures CatalogSound(Step(s, op, rules), rules)
  {
    match op
    case SealOp(_, _, _) =>
    case PromoteOp(name, expected) =>
      var v := VerifyResult(s, name, expected, rules);
      if v.Ok? { PlaceKeeps(s, v.value.bundle, s.sealed[name], expected, rules); }
    case InstallOp(_, source, bundle) =>
      var actual := rules.digest(source);
      FaithfulCopyKeepsDigest(source, rules.hashing);
      if actual.Some? { PlaceKeeps(s, bundle, CopyOf(source), actual.value, rules); }
    case Drift(_, _) =>
  }

  lemma ChecksumKeepsDigest(t: Tree, digest: string, rules: Rules)
    requires DigestsTrees(rules)
    ensures rules.digest(WithChecksum(t, digest, rules)) == rules.digest(t)
  {
    ChecksumNotHashed();
    UnhashedFileIgnored(t, [CHECKSUM], rules.write(digest), rules.hashing);
  }

  lemma NewSealSound(s: Store, name: SealName, t: Tree, rules: Rules)
    requires SealsSound(s, rules) && rules.read(rules.write(name.digest)) == name.digest
    requires rules.digest(WithChecksum(t, name.digest, rules)) == Some(name.digest)
    ensures SealsSound(s.(sealed := s.sealed[name := WithChecksum(t, name.digest, rules)]), rules)
  {
  }

  /** Only sealing and drift touch the sealed area. */
  lemma OthersKeepSeals(s: Store, op: Op, rules: Rules)
    requires op.PromoteOp? || op.InstallOp?
    ensures Step(s, op, rules).sealed == s.sealed
  {
    match op
    case PromoteOp(name, expected) =>
      var v := VerifyResult(s, name, expected, rules);
      if v.Ok? { PlaceKeeps(s, v.value.bundle, s.sealed[name], expected, rules); }
    case InstallOp(_, source, bundle) =>
      var actual := rules.digest(source);
      if actual.Some? { PlaceKeeps(s, bundle, CopyOf(source), actual.value, rules); }
  }

  lemma SealKeepsSeals(s: Store, root: Path, source: Tree, bundle: Bundle, rules: Rules)
    requires ChecksumsReadBack(rules) && SealsSound(s, rules)
    requires forall d :: rules.digest(WithChecksum(CopyOf(source), d, rules)) == rules.digest(CopyOf(source))
    ensures var next := SealStep(s, root, source, bundle, rules).0;
      && SealsSound(next, rules)
      && forall n :: n in s.sealed ==> n in next.sealed && next.sealed[n] == s.sealed[n]
  {
    var digest := rules.digest(CopyOf(source));
    if digest.Some? { NewSealSound(s, SealName(bundle, digest.value), CopyOf(source), rules); }
  }

  /** Sealing files a tree under its own digest, and never replaces one. */
  lemma StepKeepsSeals(s: Store, op: Op, rules: Rules)
    requires DigestsTrees(rules) && ChecksumsReadBack(rules) && SealsSound(s, rules) && !op.Drift?
    ensures SealsSound(Step(s, op, rules), rules)
    ensures forall n :: n in s.sealed ==> n in Step(s, op, rules).sealed && Step(s, op, rules).sealed[n] == s.sealed[n]
  {
    if op.SealOp? {
      forall d ensures rules.digest(WithChecksum(CopyOf(op.source), d, rules)) == rules.digest(CopyOf(op.source)) {
        ChecksumKeepsDigest(CopyOf(op.source), d, rules);
      }
      SealKeepsSeals(s, op.root, op.source, op.bundle, rules);
    } else {
      OthersKeepSeals(s, op, rules);
    }
  }

  /** Over every run a promoted id and version keeps its tree, and so its digest. */
  lemma {:induction false} PromotedNeverChanges(s: Store, ops: seq<Op>, rules: Rules)
    ensures KeepsPromoted(s, Run(s, ops, rules))
    decreases |ops|
  {
    if ops != [] {
      StepKeepsPromoted(s, ops[0], rules);
      PromotedNeverChanges(Step(s, ops[0], rules), ops[1..], rules);
    }
  }

  /** Over every run of faithful installs, whatever happens to the sealed area, the catalog is sound. */
  lemma {:induction false} CatalogStaysSound(s: Store, ops: seq<Op>, rules: Rules)
    requires DigestsTrees(rules) && CatalogSound(s, rules) && FaithfulInstalls(ops)
    ensures CatalogSound(Run(s, ops, rules), rules)
    decreases |ops|
  {
    if ops != [] {
      StepKeepsCatalog(s, ops[0], rules);
      assert forall i :: 0 <= i < |ops[1..]| ==> ops[1..][i] == ops[i + 1];
      CatalogStaysSound(Step(s, ops[0], rules), ops[1..], rules);
    }
  }

  /** Without drift every seal a run has made still verifies: a promotion of it can fail only later. */
  lemma {:induction false} SealsStaySound(s: Store, ops: seq<Op>, rules: Rules)
    requires DigestsTrees(rules) && ChecksumsReadBack(rules) && SealsSound(s, rules)
    requires forall i :: 0 <= i < |ops| ==> !ops[i].Drift?
    ensures SealsSound(Run(s, ops, rules), rules)
    decreases |ops|
  {
    if ops != [] {
      StepKeepsSeals(s, ops[0], rules);
      assert forall i :: 0 <= i < |ops[1..]| ==> ops[1..][i] == ops[i + 1];
      SealsStaySound(Step(s, ops[0], rules), ops[1..], rules);
    }
  }

  /** A seal verifies against the digest it is filed under, and against no other. */
  lemma SealVerifiesIff(s: Store, name: SealName, expected: string, rules: Rules)
    requires SealsSound(s, rules) && name in s.sealed && Describe(s.sealed[name], rules).Some?
    ensures VerifyResult(s, name, expected, rules).Ok? <==> expected == name.digest
  {
  }

  /** Sealing the same source again finds the first seal and changes nothing. */
  lemma SealIdempotent(s: Store, root: Path, source: Tree, bundle: Bundle, rules: Rules)
    ensures var (next, r) := SealStep(s, root, source, bundle, rules);
      r.Ok? ==> SealStep(next, root, source, bundle, rules) == (next, r)
  {
  }
}
