/**
 Resolving promoted bundles (contracts.py, resolve): which of the bundles that the store put in place
 and catalogued are found again, over all runs, and when an installed bundle is not the hashed one.
 */
module ContractResolution {
  import opened Wrappers
  import opened ContractDigest
  import opened ContractReferences
  import opened ContractStore

  /** resolve: identity, the files the descriptor names, and the pinned checksum, in this order. */
  function Resolve(s: Store, bundle: Bundle, rules: Rules): Outcome<string> {
    if bundle !in s.promoted then Err(NotInstalled)
    else
      var t := s.promoted[bundle];
      if [CHECKSUM] !in t then Err(NoChecksum)
      else if !Describes(t, bundle, rules) then Err(BadDescriptor)
      else if !Holds(t, Describe(t, rules).value) then Err(MissingReference)
      else
        match rules.digest(t)
        case None => Err(NoContent)
        case Some(actual) =>
          if rules.lower(rules.read(t[[CHECKSUM]])) != actual then Err(DigestMismatch) else Ok(actual)
  }

  // ---------------------------------------------------------------------------
  // What was put in place
  // ---------------------------------------------------------------------------

  /** The tree describes this bundle and records its own digest. */
  ghost predicate Pinned(t: Tree, bundle: Bundle, rules: Rules) {
    && Describes(t, bundle, rules)
    && [CHECKSUM] in t && rules.digest(t) == Some(rules.read(t[[CHECKSUM]]))
  }

  ghost predicate AllPinned(s: Store, rules: Rules) {
    forall b :: b in s.promoted ==> Pinned(s.promoted[b], b, rules)
  }

  /** A pinned bundle resolves if and only if it holds the files its descriptor names. */
  lemma PinnedResolves(s: Store, bundle: Bundle, rules: Rules)
    requires DigestsTrees(rules) && bundle in s.promoted && Pinned(s.promoted[bundle], bundle, rules)
    ensures var t := s.promoted[bundle];
      Resolve(s, bundle, rules) ==
      if Holds(t, Describe(t, rules).value) then Ok(rules.digest(t).value) else Err(MissingReference)
  {
    var t := s.promoted[bundle];
    assert rules.digest(t) == Some(rules.hashing.sha(StreamOf(t, rules.hashing)));
  }

  lemma PlaceKeepsPinned(s: Store, bundle: Bundle, t: Tree, digest: string, rules: Rules)
    requires AllPinned(s, rules) && (bundle in s.promoted || Pinned(t, bundle, rules))
    ensures AllPinned(PlaceStep(s, bundle, t, digest, rules).0, rules)
  {
    var next := PlaceStep(s, bundle, t, digest, rules).0;
    forall b | b in next.promoted ensures Pinned(next.promoted[b], b, rules) {
      if b in s.promoted { assert Pinned(s.promoted[b], b, rules); }
    }
  }

  lemma VerifiedPinned(s: Store, name: SealName, expected: string, rules: Rules)
    ensures var v := VerifyResult(s, name, expected, rules);
      v.Ok? ==> Pinned(s.sealed[name], v.value.bundle, rules) && Describe(s.sealed[name], rules) == Some(v.value)
                && rules.digest(s.sealed[name]) == Some(expected)
  {
  }

  lemma InstalledPinned(root: Path, source: Tree, bundle: Bundle, rules: Rules)
    requires DigestsTrees(rules) && Faithful(source) && CheckDescriptor(root, source, bundle, rules).None?
    requires [CHECKSUM] in source && rules.digest(source) == Some(rules.read(source[[CHECKSUM]]))
    ensures Pinned(CopyOf(source), bundle, rules)
  {
    ChecksumIsKept();
    DescriptorCopied(source, []);
    FaithfulCopyKeepsDigest(source, rules.hashing);
  }

  lemma PromoteKeepsPinned(s: Store, name: SealName, expected: string, rules: Rules)
    requires AllPinned(s, rules)
    ensures AllPinned(PromoteStep(s, name, expected, rules).0, rules)
  {
    var v := VerifyResult(s, name, expected, rules);
    VerifiedPinned(s, name, expected, rules);
    if v.Ok? { PlaceKeepsPinned(s, v.value.bundle, s.sealed[name], expected, rules); }
  }

  lemma InstallKeepsPinned(s: Store, root: Path, source: Tree, bundle: Bundle, rules: Rules)
    requires DigestsTrees(rules) && Faithful(source) && AllPinned(s, rules)
    ensures AllPinned(InstallStep(s, root, source, bundle, rules).0, rules)
  {
    if InstallReady(root, source, bundle, rules) {
      InstalledPinned(root, source, bundle, rules);
      PlaceKeepsPinned(s, bundle, CopyOf(source), rules.digest(source).value, rules);
    }
  }

  lemma StepKeepsPinned(s: Store, op: Op, rules: Rules)
    requires DigestsTrees(rules) && AllPinned(s, rules) && (op.InstallOp? ==> Faithful(op.source))
    ensures AllPinned(Step(s, op, rules), rules)
  {
    match op
    case SealOp(root, source, bundle) =>
      SealKeepsPromoted(s, root, source, bundle, rules);
      SamePromoted(s, SealStep(s, root, source, bundle, rules).0, rules);
    case PromoteOp(name, expected) => PromoteKeepsPinned(s, name, expected, rules);
    case InstallOp(root, source, bundle) => InstallKeepsPinned(s, root, source, bundle, rules);
    case Drift(_, _) => SamePromoted(s, Step(s, op, rules), rules);
  }

  /** Nothing stands in the way of an installation but what is in place already. */
  predicate InstallReady(root: Path, source: Tree, bundle: Bundle, rules: Rules) {
    && CheckDescriptor(root, source, bundle, rules).None? && rules.repositoryValid(source)
    && [CHECKSUM] in source && rules.digest(source) == Some(rules.read(source[[CHECKSUM]]))
  }

  lemma SealKeepsPromoted(s: Store, root: Path, source: Tree, bundle: Bundle, rules: Rules)
    ensures SealStep(s, root, source, bundle, rules).0.promoted == s.promoted
  {
  }

  lemma PlacePuts(s: Store, bundle: Bundle, t: Tree, digest: string, rules: Rules)
    requires bundle !in s.promoted
    ensures var next := PlaceStep(s, bundle, t, digest, rules).0; bundle in next.promoted && next.promoted[bundle] == t
  {
  }

  lemma InstallPlaces(s: Store, root: Path, source: Tree, bundle: Bundle, rules: Rules)
    requires InstallStep(s, root, source, bundle, rules).1.Ok?
    ensures InstallReady(root, source, bundle, rules)
    ensures InstallStep(s, root, source, bundle, rules) ==
      PlaceStep(s, bundle, CopyOf(source), rules.digest(source).value, rules)
  {
  }

  lemma SamePromoted(s: Store, next: Store, rules: Rules)
    requires next.promoted == s.promoted && AllPinned(s, rules)
    ensures AllPinned(next, rules)
  {
    forall b | b in next.promoted ensures Pinned(next.promoted[b], b, rules) {
      assert Pinned(s.promoted[b], b, rules);
    }
  }

  lemma {:induction false} RunKeepsPinned(s: Store, ops: seq<Op>, rules: Rules)
    requires DigestsTrees(rules) && FaithfulInstalls(ops) && AllPinned(s, rules)
    ensures AllPinned(Run(s, ops, rules), rules)
    decreases |ops|
  {
    if ops != [] {
      StepKeepsPinned(s, ops[0], rules);
      assert forall i :: 0 <= i < |ops[1..]| ==> ops[1..][i] == ops[i + 1];
      RunKeepsPinned(Step(s, ops[0], rules), ops[1..], rules);
    }
  }

  /**
   After any run of faithful installs, whatever happens to the sealed area, a catalogued bundle
   resolves to the digest the catalog gives it, unless it lacks a file its descriptor names; then,
   and only then, it is refused.
   */
  lemma CataloguedResolvesIff(s: Store, ops: seq<Op>, rules: Rules)
    requires DigestsTrees(rules) && FaithfulInstalls(ops) && CatalogSound(s, rules) && AllPinned(s, rules)
    ensures var last := Run(s, ops, rules);
      last.catalog.Some? ==> forall k :: k in last.catalog.value ==>
        var e := last.catalog.value[k];
        && e.bundle in last.promoted && Describe(last.promoted[e.bundle], rules).Some?
        && Resolve(last, e.bundle, rules) ==
           if Holds(last.promoted[e.bundle], Describe(last.promoted[e.bundle], rules).value) then Ok(e.digest)
           else Err(MissingReference)
  {
    var last := Run(s, ops, rules);
    CatalogStaysSound(s, ops, rules);
    RunKeepsPinned(s, ops, rules);
    if last.catalog.Some? {
      forall k | k in last.catalog.value
        ensures var e := last.catalog.value[k];
          && e.bundle in last.promoted && Describe(last.promoted[e.bundle], rules).Some?
          && Resolve(last, e.bundle, rules) ==
             if Holds(last.promoted[e.bundle], Describe(last.promoted[e.bundle], rules).value) then Ok(e.digest)
             else Err(MissingReference)
      {
        var e := last.catalog.value[k];
        assert Pinned(last.promoted[e.bundle], e.bundle, rules);
        PinnedResolves(last, e.bundle, rules);
      }
    }
  }

  // ---------------------------------------------------------------------------
  // From the source to the resolved bundle
  // ---------------------------------------------------------------------------

  lemma StepKeepsSeal(s: Store, op: Op, name: SealName, rules: Rules)
    requires !op.Drift? && name in s.sealed
    ensures var next := Step(s, op, rules); name in next.sealed && next.sealed[name] == s.sealed[name]
  {
    if op.SealOp? {
      SealAddsOne(s, op.root, op.source, op.bundle, rules);
    } else {
      OthersKeepSeals(s, op, rules);
    }
  }

  lemma {:induction false} RunKeepsSeal(s: Store, ops: seq<Op>, name: SealName, rules: Rules)
    requires name in s.sealed && forall i :: 0 <= i < |ops| ==> !ops[i].Drift?
    ensures var last := Run(s, ops, rules); name in last.sealed && last.sealed[name] == s.sealed[name]
    decreases |ops|
  {
    if ops != [] {
      StepKeepsSeal(s, ops[0], name, rules);
      assert forall i :: 0 <= i < |ops[1..]| ==> ops[1..][i] == ops[i + 1];
      RunKeepsSeal(Step(s, ops[0], rules), ops[1..], name, rules);
    }
  }

  /** What a seal holds of the files its descriptor names depends on the descriptor alone. */
  lemma SealHoldsIff(s: Store, root: Path, source: Tree, bundle: Bundle, rules: Rules)
    requires SealStep(s, root, source, bundle, rules).1.Ok?
    ensures var (next, r) := SealStep(s, root, source, bundle, rules);
      var d := Describe(source, rules);
      && d.Some? && d.value.bundle == bundle && r.value in next.sealed
      && (r.value !in s.sealed ==>
            var t := next.sealed[r.value];
            Describe(t, rules) == d && (Holds(t, d.value) <==> Portable(d.value)))
  {
    var (next, r) := SealStep(s, root, source, bundle, rules);
    var d := Describe(source, rules).value;
    CopyHoldsIff(root, source, d);
    ChecksumAddsNoReference(root, source, d, rules.write(r.value.digest));
    DescriptorCopied(source, rules.write(r.value.digest));
  }

  lemma PlacedStays(s: Store, bundle: Bundle, t: Tree, after: seq<Op>, rules: Rules)
    requires bundle in s.promoted && s.promoted[bundle] == t
    ensures var last := Run(s, after, rules); bundle in last.promoted && last.promoted[bundle] == t
  {
    PromotedNeverChanges(s, after, rules);
  }

  lemma PromotePlaces(s: Store, name: SealName, expected: string, rules: Rules)
    requires PromoteStep(s, name, expected, rules).1.Ok?
    ensures var v := VerifyResult(s, name, expected, rules);
      v.Ok? && PromoteStep(s, name, expected, rules) == PlaceStep(s, v.value.bundle, s.sealed[name], expected, rules)
  {
  }

  lemma PromotedResolves(s: Store, name: SealName, expected: string, d: Descriptor, after: seq<Op>, rules: Rules)
    requires DigestsTrees(rules) && PromoteStep(s, name, expected, rules).1.Ok?
    requires name in s.sealed && Describe(s.sealed[name], rules) == Some(d) && d.bundle !in s.promoted
    ensures var last := Run(PromoteStep(s, name, expected, rules).0, after, rules);
      Resolve(last, d.bundle, rules) == if Holds(s.sealed[name], d) then Ok(expected) else Err(MissingReference)
  {
    VerifiedPinned(s, name, expected, rules);
    PromotePlaces(s, name, expected, rules);
    PlacePuts(s, d.bundle, s.sealed[name], expected, rules);
    var placed := PlaceStep(s, d.bundle, s.sealed[name], expected, rules).0;
    PlacedStays(placed, d.bundle, s.sealed[name], after, rules);
    PinnedResolves(Run(placed, after, rules), d.bundle, rules);
  }

  /**
   A candidate that was newly sealed and, with anything but drift between, newly promoted: at any
   later time it resolves, to the digest it was sealed with, if and only if its descriptor names all
   its files by plain relative paths that the copy for sealing does not ignore.
   */
  lemma CandidateResolvesIff(s: Store, root: Path, source: Tree, bundle: Bundle, between: seq<Op>, after: seq<Op>,
      rules: Rules)
    requires DigestsTrees(rules)
    requires SealStep(s, root, source, bundle, rules).1.Ok?
    requires var (first, name) := SealStep(s, root, source, bundle, rules);
      && name.value !in s.sealed && (forall i :: 0 <= i < |between| ==> !between[i].Drift?)
      && var sealed := Run(first, between, rules);
      bundle !in sealed.promoted && PromoteStep(sealed, name.value, name.value.digest, rules).1.Ok?
    ensures var (first, name) := SealStep(s, root, source, bundle, rules);
      var sealed := Run(first, between, rules);
      var last := Run(PromoteStep(sealed, name.value, name.value.digest, rules).0, after, rules);
      && Describe(source, rules).Some?
      && Resolve(last, bundle, rules) ==
         if Portable(Describe(source, rules).value) then Ok(name.value.digest) else Err(MissingReference)
  {
    var (first, r) := SealStep(s, root, source, bundle, rules);
    SealHoldsIff(s, root, source, bundle, rules);
    RunKeepsSeal(first, between, r.value, rules);
    PromotedResolves(Run(first, between, rules), r.value, r.value.digest, Describe(source, rules).value, after, rules);
  }

  // ---------------------------------------------------------------------------
  // Runs in which every descriptor is portable
  // ---------------------------------------------------------------------------

  ghost predicate HoldsOwn(t: Tree, rules: Rules) {
    Describe(t, rules).Some? ==> Holds(t, Describe(t, rules).value)
  }

  ghost predicate AllHold(s: Store, rules: Rules) {
    && (forall n :: n in s.sealed ==> HoldsOwn(s.sealed[n], rules))
    && (forall b :: b in s.promoted ==> HoldsOwn(s.promoted[b], rules))
  }

  /** What comes in names its files by portable paths; what drifts in holds them. */
  ghost predicate PortableOp(op: Op, rules: Rules) {
    match op
    case SealOp(_, source, _) => Describe(source, rules).Some? ==> Portable(Describe(source, rules).value)
    case InstallOp(_, source, _) => Describe(source, rules).Some? ==> Portable(Describe(source, rules).value)
    case PromoteOp(_, _) => true
    case Drift(_, tree) => HoldsOwn(tree, rules)
  }

  lemma PlaceKeepsHolding(s: Store, bundle: Bundle, t: Tree, digest: string, rules: Rules)
    requires AllHold(s, rules) && HoldsOwn(t, rules)
    ensures AllHold(PlaceStep(s, bundle, t, digest, rules).0, rules)
  {
  }

  lemma SealKeepsHolding(s: Store, root: Path, source: Tree, bundle: Bundle, rules: Rules)
    requires AllHold(s, rules) && PortableOp(SealOp(root, source, bundle), rules)
    ensures AllHold(SealStep(s, root, source, bundle, rules).0, rules)
  {
    var (next, r) := SealStep(s, root, source, bundle, rules);
    if r.Ok? {
      SealHoldsIff(s, root, source, bundle, rules);
      SealAddsOne(s, root, source, bundle, rules);
    }
  }

  lemma SealAddsOne(s: Store, root: Path, source: Tree, bundle: Bundle, rules: Rules)
    ensures var (next, r) := SealStep(s, root, source, bundle, rules);
      && (r.Err? ==> next == s)
      && (r.Ok? ==>
            && next.promoted == s.promoted && r.value in next.sealed
            && (next.sealed == s.sealed
                || (r.value !in s.sealed && next.sealed == s.sealed[r.value := next.sealed[r.value]])))
  {
  }

  lemma InstallKeepsHolding(s: Store, root: Path, source: Tree, bundle: Bundle, rules: Rules)
    requires AllHold(s, rules) && PortableOp(InstallOp(root, source, bundle), rules)
    ensures AllHold(InstallStep(s, root, source, bundle, rules).0, rules)
  {
    if InstallReady(root, source, bundle, rules) {
      CopyHoldsIff(root, source, Describe(source, rules).value);
      DescriptorCopied(source, []);
      PlaceKeepsHolding(s, bundle, CopyOf(source), rules.digest(source).value, rules);
    }
  }

  lemma PromoteKeepsHolding(s: Store, name: SealName, expected: string, rules: Rules)
    requires AllHold(s, rules)
    ensures AllHold(PromoteStep(s, name, expected, rules).0, rules)
  {
    var v := VerifyResult(s, name, expected, rules);
    if v.Ok? { PlaceKeepsHolding(s, v.value.bundle, s.sealed[name], expected, rules); }
  }

  lemma StepKeepsHolding(s: Store, op: Op, rules: Rules)
    requires AllHold(s, rules) && PortableOp(op, rules)
    ensures AllHold(Step(s, op, rules), rules)
  {
    match op
    case SealOp(root, source, bundle) => SealKeepsHolding(s, root, source, bundle, rules);
    case PromoteOp(name, expected) => PromoteKeepsHolding(s, name, expected, rules);
    case InstallOp(root, source, bundle) => InstallKeepsHolding(s, root, source, bundle, rules);
    case Drift(_, _) =>
  }

  lemma {:induction false} RunKeepsHolding(s: Store, ops: seq<Op>, rules: Rules)
    requires AllHold(s, rules) && forall i :: 0 <= i < |ops| ==> PortableOp(ops[i], rules)
    ensures AllHold(Run(s, ops, rules), rules)
    decreases |ops|
  {
    if ops != [] {
      StepKeepsHolding(s, ops[0], rules);
      assert forall i :: 0 <= i < |ops[1..]| ==> ops[1..][i] == ops[i + 1];
      RunKeepsHolding(Step(s, ops[0], rules), ops[1..], rules);
    }
  }

  /** After such a run every catalogued bundle resolves, to the digest the catalog gives it. */
  lemma PortableRunsResolve(s: Store, ops: seq<Op>, rules: Rules)
    requires DigestsTrees(rules) && FaithfulInstalls(ops) && forall i :: 0 <= i < |ops| ==> PortableOp(ops[i], rules)
    requires CatalogSound(s, rules) && AllPinned(s, rules) && AllHold(s, rules)
    ensures var last := Run(s, ops, rules);
      last.catalog.Some? ==> forall k :: k in last.catalog.value ==>
        Resolve(last, last.catalog.value[k].bundle, rules) == Ok(last.catalog.value[k].digest)
  {
    var last := Run(s, ops, rules);
    CataloguedResolvesIff(s, ops, rules);
    RunKeepsHolding(s, ops, rules);
    if last.catalog.Some? {
      forall k | k in last.catalog.value
        ensures Resolve(last, last.catalog.value[k].bundle, rules) == Ok(last.catalog.value[k].digest)
      {
        assert HoldsOwn(last.promoted[last.catalog.value[k].bundle], rules);
      }
    }
  }

  // ---------------------------------------------------------------------------
  // Copies that drop what was hashed
  // ---------------------------------------------------------------------------

  /** The hash tells these two apart, if they differ. */
  ghost predicate NoCollision(h: Hashing, a: Bytes, b: Bytes) { h.sha(a) == h.sha(b) ==> a == b }

  lemma CopyKeepsDigestIff(source: Tree, rules: Rules)
    requires DigestsTrees(rules) && Utf8Injective(rules.hashing)
    requires NoCollision(rules.hashing, StreamOf(CopyOf(source), rules.hashing), StreamOf(source, rules.hashing))
    requires FramableTree(source, rules.hashing) && rules.digest(source).Some?
    ensures rules.digest(CopyOf(source)) == rules.digest(source) <==> Faithful(source)
  {
    var h := rules.hashing;
    if Faithful(source) { FaithfulCopyKeepsDigest(source, h); }
    if rules.digest(CopyOf(source)) == rules.digest(source) {
      assert DigestOf(CopyOf(source), h) == Some(h.sha(StreamOf(CopyOf(source), h)));
      assert DigestOf(source, h) == Some(h.sha(StreamOf(source, h)));
      CopyKeepsStreamIff(source, h);
    }
  }

  lemma FirstPlaceSoundIff(s: Store, bundle: Bundle, t: Tree, digest: string, rules: Rules)
    requires CatalogSound(s, rules) && bundle !in s.promoted && PlaceStep(s, bundle, t, digest, rules).1.Ok?
    ensures CatalogSound(PlaceStep(s, bundle, t, digest, rules).0, rules) <==> rules.digest(t) == Some(digest)
  {
    var next := PlaceStep(s, bundle, t, digest, rules).0;
    assert next.promoted[bundle] == t;
    assert next.catalog.value[CatalogKey(bundle)] == Entry(bundle, digest);
    PlaceKeeps(s, bundle, t, digest, rules);
  }

  /**
   A first installation leaves its catalog entry in agreement with the installed tree exactly when
   the copy dropped nothing that was hashed.
   */
  lemma InstallSoundIff(s: Store, root: Path, source: Tree, bundle: Bundle, rules: Rules)
    requires CatalogSound(s, rules) && bundle !in s.promoted && InstallStep(s, root, source, bundle, rules).1.Ok?
    requires DigestsTrees(rules) && Utf8Injective(rules.hashing) && FramableTree(source, rules.hashing)
    requires NoCollision(rules.hashing, StreamOf(CopyOf(source), rules.hashing), StreamOf(source, rules.hashing))
    ensures CatalogSound(InstallStep(s, root, source, bundle, rules).0, rules) <==> Faithful(source)
  {
    InstallPlaces(s, root, source, bundle, rules);
    CopyKeepsDigestIff(source, rules);
    FirstPlaceSoundIff(s, bundle, CopyOf(source), rules.digest(source).value, rules);
  }

  /**
   A bundle newly installed from the repository resolves, at any later time, if and only if the copy
   dropped nothing that was hashed and nothing that its descriptor names.
   */
  lemma InstalledResolvesIff(s: Store, root: Path, source: Tree, bundle: Bundle, after: seq<Op>, rules: Rules)
    requires bundle !in s.promoted && InstallStep(s, root, source, bundle, rules).1.Ok?
    requires DigestsTrees(rules) && Utf8Injective(rules.hashing) && FramableTree(source, rules.hashing)
    requires NoCollision(rules.hashing, StreamOf(CopyOf(source), rules.hashing), StreamOf(source, rules.hashing))
    ensures var last := Run(InstallStep(s, root, source, bundle, rules).0, after, rules);
      && Describe(source, rules).Some?
      && (Resolve(last, bundle, rules).Ok? <==> Faithful(source) && Portable(Describe(source, rules).value))
  {
    InstallPlaces(s, root, source, bundle, rules);
    PlacePuts(s, bundle, CopyOf(source), rules.digest(source).value, rules);
    var placed := PlaceStep(s, bundle, CopyOf(source), rules.digest(source).value, rules).0;
    PlacedStays(placed, bundle, CopyOf(source), after, rules);
    CopyResolvesIff(Run(placed, after, rules), root, source, bundle, rules);
    CopyKeepsDigestIff(source, rules);
  }

  lemma CopyResolvesIff(s: Store, root: Path, source: Tree, bundle: Bundle, rules: Rules)
    requires DigestsTrees(rules) && bundle in s.promoted && s.promoted[bundle] == CopyOf(source)
    requires InstallReady(root, source, bundle, rules)
    ensures Resolve(s, bundle, rules).Ok? <==>
      rules.digest(CopyOf(source)) == rules.digest(source) && Portable(Describe(source, rules).value)
  {
    ChecksumIsKept();
    DescriptorCopied(source, []);
    CopyHoldsIff(root, source, Describe(source, rules).value);
    assert rules.digest(source) == Some(rules.hashing.sha(StreamOf(source, rules.hashing)));
  }
}
