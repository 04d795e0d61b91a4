/**
 What the checks of the backup script accept (secret_backup_restore.py, _safe_relative_path,
 _parse_internal_checksums, _preflight_archive and create_backup), in terms of characters, components
 and counts.
 */
module VaultChecks {
  import opened Wrappers
  import opened Lists
  import opened PosixPath
  import opened ChecksumDocument
  import opened VaultArchive
  import Text

  // ---------------------------------------------------------------------------
  // Lines
  // ---------------------------------------------------------------------------

  lemma LineBreakIff(c: char)
    ensures LineBreak(c) <==>
      || c == '\n' || c == '\r' || c == '\U{0B}' || c == '\U{0C}' || c == '\U{1C}' || c == '\U{1D}' || c == '\U{1E}'
      || c == '\U{85}' || c == '\U{2028}' || c == '\U{2029}'
  {
    assert '\U{0B}' as int == 11 && '\U{0C}' as int == 12 && '\U{85}' as int == 133;
  }

  // ---------------------------------------------------------------------------
  // Names
  // ---------------------------------------------------------------------------

  /** A component of a path that leads nowhere else. */
  predicate OrdinaryPart(p: string) { p != "" && p != "." && p != ".." }

  /**
   A name is accepted if and only if it has no backslash and is the directory itself or made of
   components none of which is empty, `.` or `..`: it cannot lead out of the directory.
   */
  lemma SafeNameIff(path: string)
    ensures SafeRelative(path) <==>
      && '\\' !in path
      && (path == "." || (path != "" && forall p :: p in Text.Split(path, '/') ==> OrdinaryPart(p)))
  {
    OneDot();
    ContainedIff(Text.Split(path, '/'));
    if path != "" {
      if Contained(Text.Split(path, '/')) { ContainedIsAccepted(path); }
      if ".." !in PathParts(path) && Normalize(path) == path { AcceptedIsContained(path); }
    }
  }

  lemma ContainedIff(parts: seq<string>)
    ensures Contained(parts) <==> forall p :: p in parts ==> OrdinaryPart(p)
  {
    if forall p :: p in parts ==> OrdinaryPart(p) {
      forall i | 0 <= i < |parts| ensures NamedPart(parts[i]) && parts[i] != ".." { assert parts[i] in parts; }
    }
  }

  // ---------------------------------------------------------------------------
  // Checksum lines
  // ---------------------------------------------------------------------------

  predicate LowerHex(d: string) {
    |d| == 64 && forall c :: c in d ==> '0' <= c <= '9' || 'a' <= c <= 'f'
  }

  predicate OnOneLine(n: string) { n != "" && '\0' !in n && '\r' !in n && '\n' !in n }

  lemma LowerHexIff(d: string)
    ensures HexDigest(d) <==> LowerHex(d)
  {
    if LowerHex(d) {
      forall i | 0 <= i < 64 ensures HexChar(d[i]) { assert d[i] in d; }
    }
  }

  lemma OnOneLineIff(n: string)
    ensures NameChars(n) <==> OnOneLine(n)
  {
    if OnOneLine(n) {
      forall i | 0 <= i < |n| ensures n[i] != '\0' && n[i] != '\r' && n[i] != '\n' { assert n[i] in n; }
    }
  }

  /** An entry is 64 lower-case hexadecimal digits, two spaces and a name that may be listed. */
  lemma LineIsEntryIff(own: string, safe: string -> bool, line: string, name: string, digest: string)
    ensures EntryOf(own, safe)(line) == Some((name, digest)) <==>
      line == digest + "  " + name && LowerHex(digest) && OnOneLine(name) && safe(name) && name != own
  {
    LowerHexIff(digest);
    OnOneLineIff(name);
    if line == digest + "  " + name && HexDigest(digest) {
      LineRoundTrip(digest, name);
    }
    if ParseLine(line) == Some((name, digest)) {
      assert line == line[..64] + [line[64], line[65]] + line[66..];
      assert [line[64], line[65]] == "  ";
    }
  }

  /** The lines list these digests: each is an entry, and no name comes twice. */
  ghost predicate ListedBy(lines: seq<string>, entry: Reader, found: Checksums) {
    && (forall i :: 0 <= i < |lines| ==>
          entry(lines[i]).Some? && entry(lines[i]).value.0 in found
          && found[entry(lines[i]).value.0] == entry(lines[i]).value.1)
    && (forall i, j :: 0 <= i < j < |lines| && entry(lines[i]).Some? && entry(lines[j]).Some? ==>
          entry(lines[i]).value.0 != entry(lines[j]).value.0)
    && forall n :: n in found ==> exists i :: 0 <= i < |lines| && entry(lines[i]).Some? && entry(lines[i]).value.0 == n
  }

  predicate SameEntry(a: Option<(string, string)>, b: Option<(string, string)>) {
    a.Some? && b.Some? && a.value.0 == b.value.0
  }

  lemma ListsNext(before: seq<string>, line: string, entry: Reader, found: Checksums)
    requires ListedBy(before, entry, found) && entry(line).Some? && entry(line).value.0 !in found
    ensures ListedBy(before + [line], entry, found[entry(line).value.0 := entry(line).value.1])
  {
    var lines, next := before + [line], found[entry(line).value.0 := entry(line).value.1];
    forall n | n in next
      ensures exists i :: 0 <= i < |lines| && entry(lines[i]).Some? && entry(lines[i]).value.0 == n
    {
      if n == entry(line).value.0 {
        assert lines[|before|] == line;
      } else {
        var i :| 0 <= i < |before| && entry(before[i]).Some? && entry(before[i]).value.0 == n;
        assert lines[i] == before[i];
      }
    }
  }

  /** One line is no entry, or two entries have one name. */
  ghost predicate Unlistable(lines: seq<string>, entry: Reader) {
    || (exists i :: 0 <= i < |lines| && entry(lines[i]).None?)
    || (exists i, j :: 0 <= i < j < |lines| && SameEntry(entry(lines[i]), entry(lines[j])))
  }

  lemma UnlistableNext(before: seq<string>, line: string, entry: Reader)
    requires Unlistable(before, entry) || entry(line).None?
      || exists i :: 0 <= i < |before| && SameEntry(entry(before[i]), entry(line))
    ensures Unlistable(before + [line], entry)
  {
    var lines := before + [line];
    assert lines[|before|] == line;
    forall i | 0 <= i < |before| ensures lines[i] == before[i] {
    }
    if i :| 0 <= i < |before| && entry(before[i]).None? {
      assert entry(lines[i]).None?;
    } else if i, j :| 0 <= i < j < |before| && SameEntry(entry(before[i]), entry(before[j])) {
      assert SameEntry(entry(lines[i]), entry(lines[j]));
    } else if i :| 0 <= i < |before| && SameEntry(entry(before[i]), entry(line)) {
      assert SameEntry(entry(lines[i]), entry(lines[|before|]));
    } else {
      assert entry(lines[|before|]).None?;
    }
  }

  /** The parser accepts exactly the lines that list digests, and returns those. */
  lemma {:induction false} ParsedLists(lines: seq<string>, entry: Reader)
    ensures ParseLines(lines, entry).Some? ==> ListedBy(lines, entry, ParseLines(lines, entry).value)
    ensures ParseLines(lines, entry).None? ==> Unlistable(lines, entry)
  {
    if lines != [] {
      var before, line := lines[..|lines| - 1], lines[|lines| - 1];
      assert lines == before + [line];
      ParsedLists(before, entry);
      var r := ParseLines(before, entry);
      if r.None? || entry(line).None? {
        UnlistableNext(before, line, entry);
      } else if entry(line).value.0 !in r.value {
        ListsNext(before, line, entry, r.value);
      } else {
        var i :| 0 <= i < |before| && entry(before[i]).Some? && entry(before[i]).value.0 == entry(line).value.0;
        assert SameEntry(entry(before[i]), entry(line));
        UnlistableNext(before, line, entry);
      }
    }
  }

  // ---------------------------------------------------------------------------
  // Members
  // ---------------------------------------------------------------------------

  /** A member that may be extracted. */
  predicate Extractable(m: Member) {
    && m.regular && m.size >= 0 && SafeRelative(m.name)
    && (m.name == "SHA256SUMS" || m.name == "vault/inventory.yaml" || m.name == "policy/.sops.yaml"
        || ("vault/" <= m.name && Text.EndsWith(m.name, ".sops.yaml")))
  }

  lemma FixedNames(w: Setting)
    requires StandardNames(w)
    ensures w.inventory == "vault/inventory.yaml" && w.policy == "policy/.sops.yaml" && w.top + "/" == "vault/"
  {
    assert "vault" + "/" == "vault/" && "vault/" + "inventory.yaml" == "vault/inventory.yaml";
    assert "policy" + "/" == "policy/" && "policy/" + ".sops.yaml" == "policy/.sops.yaml";
  }

  lemma ExtractableIff(w: Setting, m: Member)
    requires StandardNames(w)
    ensures MemberOk(w, m) <==> Extractable(m)
  {
    FixedNames(w);
  }

  lemma AllExtractableIff(w: Setting, members: seq<Member>)
    requires StandardNames(w)
    ensures (forall i :: 0 <= i < |members| ==> MemberCheck(w)(members[i])) <==>
      forall m :: m in members ==> Extractable(m)
  {
    forall m ensures MemberOk(w, m) <==> Extractable(m) { ExtractableIff(w, m); }
    if forall i :: 0 <= i < |members| ==> MemberCheck(w)(members[i]) {
      forall m | m in members ensures Extractable(m) {
        var i :| 0 <= i < |members| && members[i] == m;
        assert MemberCheck(w)(members[i]);
      }
    } else {
      var i :| 0 <= i < |members| && !MemberCheck(w)(members[i]);
      assert members[i] in members;
    }
  }

  /**
   Preflight accepts exactly 1 to 10000 members, all extractable, no two of one name, of at most
   512 MiB together, with the three metadata files among them.
   */
  lemma PreflightIff(w: Setting, members: seq<Member>)
    requires StandardNames(w)
    ensures PreflightOk(w, members) <==>
      && 1 <= |members| <= 10000 && Total(members) <= 536870912
      && (forall m :: m in members ==> Extractable(m))
      && (forall i, j :: 0 <= i < j < |members| ==> members[i].name != members[j].name)
      && Present(members, w.checksum) && Present(members, w.inventory) && Present(members, w.policy)
  {
    AllExtractableIff(w, members);
    PresentIff(members, w.checksum);
    PresentIff(members, w.inventory);
    PresentIff(members, w.policy);
    CheckedMembers(w, members);
  }

  predicate Present(members: seq<Member>, name: string) {
    exists i :: 0 <= i < |members| && members[i].name == name
  }

  lemma PresentIff(members: seq<Member>, name: string)
    ensures name in MemberNames(members) <==> Present(members, name)
  {
    if i :| 0 <= i < |members| && members[i].name == name { assert members[i] in members; }
  }

  lemma CheckedMembers(w: Setting, members: seq<Member>)
    ensures PreflightOk(w, members) <==>
      && 1 <= |members| <= 10000 && Total(members) <= 536870912
      && (forall i :: 0 <= i < |members| ==> MemberCheck(w)(members[i]))
      && (forall i, j :: 0 <= i < j < |members| ==> members[i].name != members[j].name)
      && w.checksum in MemberNames(members) && w.inventory in MemberNames(members) && w.policy in MemberNames(members)
  {
  }

  // ---------------------------------------------------------------------------
  // Backups
  // ---------------------------------------------------------------------------

  /** A file of at most 4 MiB. */
  predicate SmallFile(files: Files, name: string) { name in files && |files[name]| <= 4194304 }

  /** The inventory lists these paths: some, each safe and with the suffix of documents, none twice. */
  ghost predicate Inventoried(w: Setting, vault: Files, paths: seq<string>) {
    && SmallFile(vault, w.local) && w.records(vault[w.local]) == Some(paths)
    && paths != [] && NoDuplicates(paths)
    && forall p :: p in paths ==> w.safe(p) && Text.EndsWith(p, w.suffix)
  }

  /** They are the documents of the vault, and all of them are small and valid under the policy. */
  ghost predicate AllValid(w: Setting, vault: Files, policy: Bytes, paths: seq<string>) {
    && (forall p :: p in paths <==> p in vault && Text.EndsWith(p, w.suffix))
    && |policy| <= 4194304 && w.policyOk(policy)
    && forall p :: p in paths ==> SmallFile(vault, p) && w.sopsOk(policy, p, vault[p])
  }

  lemma PathsOkIff(w: Setting, paths: seq<string>)
    ensures PathsOk(w, paths) <==>
      paths != [] && NoDuplicates(paths) && forall p :: p in paths ==> w.safe(p) && Text.EndsWith(p, w.suffix)
  {
    if PathsOk(w, paths) {
      forall p | p in paths ensures w.safe(p) && Text.EndsWith(p, w.suffix) {
        var i :| 0 <= i < |paths| && paths[i] == p;
      }
    } else if forall p :: p in paths ==> w.safe(p) && Text.EndsWith(p, w.suffix) {
      forall i | 0 <= i < |paths| ensures w.safe(paths[i]) && Text.EndsWith(paths[i], w.suffix) {
        assert paths[i] in paths;
      }
    }
  }

  lemma VaultOkIff(w: Setting, vault: Files, policy: Bytes, paths: seq<string>)
    requires forall p :: p in paths ==> w.safe(p)
    ensures VaultOk(w, vault, policy, paths) <==> AllValid(w, vault, policy, paths)
  {
    assert (set p | p in paths) == Discovered(w, vault) <==>
      forall p :: p in paths <==> p in vault && Text.EndsWith(p, w.suffix) by {
      if (set p | p in paths) == Discovered(w, vault) {
        forall p ensures p in paths <==> p in vault && Text.EndsWith(p, w.suffix) {
          assert p in (set q | q in paths) <==> p in Discovered(w, vault);
        }
      }
    }
    DocumentsOkIff(w, vault, policy, paths);
  }

  lemma DocumentsOkIff(w: Setting, vault: Files, policy: Bytes, paths: seq<string>)
    ensures DocumentsOk(w, paths, policy, Lookup(vault)) <==>
      forall p :: p in paths ==> SmallFile(vault, p) && w.sopsOk(policy, p, vault[p])
  {
    if DocumentsOk(w, paths, policy, Lookup(vault)) {
      forall p | p in paths ensures SmallFile(vault, p) && w.sopsOk(policy, p, vault[p]) {
        var i :| 0 <= i < |paths| && paths[i] == p;
        assert Lookup(vault)(paths[i]).Some?;
      }
    } else if forall p :: p in paths ==> SmallFile(vault, p) && w.sopsOk(policy, p, vault[p]) {
      forall i | 0 <= i < |paths|
        ensures var d := Lookup(vault)(paths[i]); d.Some? && Readable(d.value) && w.sopsOk(policy, paths[i], d.value)
      {
        assert paths[i] in paths;
      }
    }
  }

  /** The paths are checked and archived exactly if they are inventoried and all valid. */
  lemma CheckedIff(w: Setting, vault: Files, policy: Bytes, paths: seq<string>)
    ensures CheckedPaths(w, vault, policy) == Some(paths) <==>
      Inventoried(w, vault, paths) && AllValid(w, vault, policy, paths)
  {
    PathsOkIff(w, paths);
    if PathsOk(w, paths) { VaultOkIff(w, vault, policy, paths); }
  }

  lemma PrintableIff(w: Setting, base: Files)
    requires Lawful(w)
    ensures w.document(base).Some? <==> forall n :: n in base ==> Ascii(n)
  {
    SortedNamesAre(base.Keys);
    var names := SortedNames(base.Keys);
    AsciiText(names, DigestIn(w, base));
    assert w.document(base) == ChecksumBytes(w, base);
    assert forall n :: n in names <==> n in base;
  }

  lemma Archived(w: Setting, vault: Files, policy: Bytes, paths: seq<string>)
    requires NamesOk(w) && Inventoried(w, vault, paths) && AllValid(w, vault, policy, paths)
    ensures w.local in vault && forall p :: p in paths ==> p in vault
    ensures BaseFiles(w, vault, policy, paths).Keys == {w.inventory, w.policy} + VaultNames(w, paths)
  {
    forall i | 0 <= i < |paths| ensures Text.EndsWith(paths[i], w.suffix) { assert paths[i] in paths; }
    BaseCollected(w, vault, policy, paths);
  }

  lemma BackupFor(w: Setting, vault: Files, policy: Bytes, paths: seq<string>)
    requires CheckedPaths(w, vault, policy) == Some(paths)
    ensures CreateBackup(w, vault, policy).Some? <==> w.document(BaseFiles(w, vault, policy, paths)).Some?
  {
  }

  /** With such paths a backup is made exactly if every name in the archive is ASCII. */
  lemma BackupMadeIff(w: Setting, vault: Files, policy: Bytes, paths: seq<string>)
    requires Lawful(w) && Inventoried(w, vault, paths) && AllValid(w, vault, policy, paths)
    ensures CreateBackup(w, vault, policy).Some? <==>
      Ascii(w.inventory) && Ascii(w.policy) && forall p :: p in paths ==> Ascii(InVault(w, p))
  {
    CheckedIff(w, vault, policy, paths);
    Archived(w, vault, policy, paths);
    BackupFor(w, vault, policy, paths);
    PrintableIff(w, BaseFiles(w, vault, policy, paths));
    NamesAscii(w, paths);
  }

  lemma NamesAscii(w: Setting, paths: seq<string>)
    ensures (forall n :: n in {w.inventory, w.policy} + VaultNames(w, paths) ==> Ascii(n)) <==>
      Ascii(w.inventory) && Ascii(w.policy) && forall p :: p in paths ==> Ascii(InVault(w, p))
  {
    forall p | p in paths ensures InVault(w, p) in VaultNames(w, paths) {
    }
  }

  /** And without such paths none is made. */
  lemma BackupNeedsPaths(w: Setting, vault: Files, policy: Bytes)
    requires CreateBackup(w, vault, policy).Some?
    ensures exists paths :: Inventoried(w, vault, paths) && AllValid(w, vault, policy, paths)
  {
    CheckedIff(w, vault, policy, CheckedPaths(w, vault, policy).value);
  }
}
