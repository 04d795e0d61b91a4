/**
 The SHA256SUMS document inside a backup archive (secret_backup_restore.py, _checksum_document and
 _parse_internal_checksums): when parsing undoes printing.
 */
module ChecksumDocument {
  import opened Wrappers
  import opened Order
  import opened Lists

  type Checksums = map<string, string>

  // ---------------------------------------------------------------------------
  // Lines
  // ---------------------------------------------------------------------------

  /** The characters at which `str.splitlines` breaks. */
  predicate LineBreak(c: char) {
    var n := c as int;
    0xA <= n <= 0xD || 0x1C <= n <= 0x1E || n == 0x85 || n == 0x2028 || n == 0x2029
  }

  predicate Unbroken(s: string) { forall i :: 0 <= i < |s| ==> !LineBreak(s[i]) }

  function LineEnd(s: string, i: nat): (e: nat)
    requires i <= |s|
    ensures i <= e <= |s| && (e < |s| ==> LineBreak(s[e])) && forall k :: i <= k < e ==> !LineBreak(s[k])
    decreases |s| - i
  {
    if i < |s| && !LineBreak(s[i]) then LineEnd(s, i + 1) else i
  }

  function SplitLines(s: string): seq<string>
    decreases |s|
  {
    if s == "" then []
    else
      var e := LineEnd(s, 0);
      if e == |s| then [s]
      else [s[..e]] + SplitLines(s[if s[e] == '\r' && e + 1 < |s| && s[e + 1] == '\n' then e + 2 else e + 1..])
  }

  lemma {:induction false} LinesUnbroken(s: string)
    ensures forall i :: 0 <= i < |SplitLines(s)| ==> Unbroken(SplitLines(s)[i])
    decreases |s|
  {
    if s != "" {
      var e := LineEnd(s, 0);
      assert Unbroken(s[..e]);
      if e < |s| {
        LinesUnbroken(s[if s[e] == '\r' && e + 1 < |s| && s[e + 1] == '\n' then e + 2 else e + 1..]);
      } else {
        assert s[..e] == s;
      }
    }
  }

  /** `"".join(line + "\n" for line in lines)`. */
  function Unlines(lines: seq<string>): string {
    if lines == [] then "" else lines[0] + "\n" + Unlines(lines[1..])
  }

  lemma {:induction false} LineEndIs(s: string, i: nat, e: nat)
    requires i <= e < |s| && LineBreak(s[e]) && forall k :: i <= k < e ==> !LineBreak(s[k])
    ensures LineEnd(s, i) == e
    decreases e - i
  {
    if i < e { LineEndIs(s, i + 1, e); }
  }

  lemma FirstLine(line: string, rest: string)
    requires Unbroken(line)
    ensures SplitLines(line + "\n" + rest) == [line] + SplitLines(rest)
  {
    var s := line + "\n" + rest;
    var e := |line|;
    assert s[e] == '\n' && s[..e] == line && s[e + 1..] == rest;
    forall k | 0 <= k < e ensures !LineBreak(s[k]) { assert s[k] == line[k]; }
    LineEndIs(s, 0, e);
  }

  lemma {:induction false} SplitUnlines(lines: seq<string>)
    requires forall i :: 0 <= i < |lines| ==> Unbroken(lines[i])
    ensures SplitLines(Unlines(lines)) == lines
  {
    if lines != [] {
      SplitUnlines(lines[1..]);
      FirstLine(lines[0], Unlines(lines[1..]));
      assert lines == [lines[0]] + lines[1..];
    }
  }

  // ---------------------------------------------------------------------------
  // Entries
  // ---------------------------------------------------------------------------

  predicate HexChar(c: char) { '0' <= c <= '9' || 'a' <= c <= 'f' }

  predicate HexDigest(s: string) { |s| == 64 && forall i :: 0 <= i < 64 ==> HexChar(s[i]) }

  /** What the pattern of an entry accepts as a name. */
  predicate NameChars(s: string) {
    s != "" && forall i :: 0 <= i < |s| ==> s[i] != '\0' && s[i] != '\r' && s[i] != '\n'
  }

  function PrintLine(digest: string, name: string): string { digest + "  " + name }

  /** The name and digest of an entry. */
  function ParseLine(line: string): Option<(string, string)> {
    if |line| > 66 && HexDigest(line[..64]) && line[64] == ' ' && line[65] == ' ' && NameChars(line[66..])
    then Some((line[66..], line[..64]))
    else None
  }

  lemma LineRoundTrip(digest: string, name: string)
    requires HexDigest(digest)
    ensures ParseLine(PrintLine(digest, name)) == if NameChars(name) then Some((name, digest)) else None
  {
    var line := PrintLine(digest, name);
    assert line[..64] == digest && line[66..] == name;
  }

  /**
   An entry that the document may list: `own` is the name of the document itself, `safe` the test of
   relative paths.
   */
  function EntryOf(own: string, safe: string -> bool): string -> Option<(string, string)> {
    (line: string) =>
      match ParseLine(line)
      case None => None
      case Some((name, digest)) => if safe(name) && name != own then Some((name, digest)) else None
  }

  type Reader = string -> Option<(string, string)>

  /** The entries of the lines; a repeated name is refused. */
  function ParseLines(lines: seq<string>, entry: Reader): Option<Checksums> {
    if lines == [] then Some(map[])
    else
      match ParseLines(lines[..|lines| - 1], entry)
      case None => None
      case Some(found) =>
        match entry(lines[|lines| - 1])
        case None => None
        case Some((name, digest)) => if name in found then None else Some(found[name := digest])
  }

  predicate Ascii(s: string) { forall i :: 0 <= i < |s| ==> s[i] as int < 128 }

  function EncodeAscii(s: string): (b: Bytes)
    requires Ascii(s)
    ensures |b| == |s|
  {
    seq(|s|, i requires 0 <= i < |s| => s[i] as int)
  }

  predicate AsciiBytes(b: Bytes) { forall i :: 0 <= i < |b| ==> b[i] < 128 }

  function DecodeAscii(b: Bytes): (s: string)
    requires AsciiBytes(b)
    ensures |s| == |b|
  {
    seq(|b|, i requires 0 <= i < |b| => b[i] as char)
  }

  lemma AsciiRoundTrip(s: string)
    requires Ascii(s)
    ensures AsciiBytes(EncodeAscii(s)) && DecodeAscii(EncodeAscii(s)) == s
  {
  }

  /** The result of _parse_internal_checksums; `None` for every refusal. */
  function ParseDocument(b: Bytes, own: string, safe: string -> bool): Option<Checksums> {
    if !AsciiBytes(b) then None
    else
      match ParseLines(SplitLines(DecodeAscii(b)), EntryOf(own, safe))
      case None => None
      case Some(found) => if found == map[] then None else Some(found)
  }

  /** _parse_internal_checksums, as it runs. */
  method ParseChecksums(b: Bytes, own: string, safe: string -> bool) returns (r: Option<Checksums>)
    ensures r == ParseDocument(b, own, safe)
  {
    if !AsciiBytes(b) {
      return None;
    }
    var lines := SplitLines(DecodeAscii(b));
    var found: Checksums := map[];
    for i := 0 to |lines|
      invariant ParseLines(lines[..i], EntryOf(own, safe)) == Some(found)
    {
      assert lines[..i + 1][..i] == lines[..i];
      var entry := EntryOf(own, safe)(lines[i]);
      if entry.None? || entry.value.0 in found {
        RefusedForGood(lines, i + 1, EntryOf(own, safe));
        return None;
      }
      found := found[entry.value.0 := entry.value.1];
    }
    assert lines[..|lines|] == lines;
    r := if found == map[] then None else Some(found);
  }

  lemma {:induction false} RefusedForGood(lines: seq<string>, n: nat, entry: Reader)
    requires n <= |lines| && ParseLines(lines[..n], entry) == None
    ensures ParseLines(lines, entry) == None
    decreases |lines|
  {
    if n == |lines| {
      assert lines[..n] == lines;
    } else {
      assert lines[..|lines| - 1][..n] == lines[..n];
      RefusedForGood(lines[..|lines| - 1], n, entry);
    }
  }

  // ---------------------------------------------------------------------------
  // Printing
  // ---------------------------------------------------------------------------

  /** `f"{digest(name)}  {name}"`. */
  function LineFor(digest: string -> string): string -> string { (name: string) => PrintLine(digest(name), name) }

  /** The document for the names, in the order given. */
  function PrintText(names: seq<string>, digest: string -> string): string { Unlines(Map(names, LineFor(digest))) }

  /** A name that a line of the document can carry. */
  predicate LineSafe(name: string) { Unbroken(name) && NameChars(name) }

  lemma PrintedLineUnbroken(digest: string, name: string)
    requires HexDigest(digest)
    ensures Unbroken(PrintLine(digest, name)) <==> Unbroken(name)
  {
    var line := PrintLine(digest, name);
    forall i | 0 <= i < |line| ensures LineBreak(line[i]) <==> i >= 66 && LineBreak(name[i - 66]) {
      if i < 64 { assert line[i] == digest[i]; }
    }
    if Unbroken(line) {
      forall i | 0 <= i < |name| ensures !LineBreak(name[i]) { assert line[i + 66] == name[i]; }
    }
  }

  function DigestMap(names: seq<string>, digest: string -> string): Checksums { map n | n in names :: digest(n) }

  lemma ParseSnoc(before: seq<string>, line: string, found: Checksums, name: string, digest: string, entry: Reader)
    requires ParseLines(before, entry) == Some(found) && entry(line) == Some((name, digest)) && name !in found
    ensures ParseLines(before + [line], entry) == Some(found[name := digest])
  {
    var lines := before + [line];
    assert lines[..|lines| - 1] == before;
  }

  lemma DigestMapSnoc(before: seq<string>, last: string, digest: string -> string)
    ensures DigestMap(before + [last], digest) == DigestMap(before, digest)[last := digest(last)]
  {
  }

  lemma {:induction false} ParsePrinted(names: seq<string>, line: string -> string, digest: string -> string,
      entry: Reader)
    requires NoDuplicates(names)
    requires forall i :: 0 <= i < |names| ==> entry(line(names[i])) == Some((names[i], digest(names[i])))
    ensures ParseLines(Map(names, line), entry) == Some(DigestMap(names, digest))
  {
    if names != [] {
      var before, last := names[..|names| - 1], names[|names| - 1];
      ParsePrinted(before, line, digest, entry);
      assert names == before + [last];
      MapConcat(before, [last], line);
      assert Map([last], line) == [line(last)];
      assert last !in before;
      ParseSnoc(Map(before, line), line(last), DigestMap(before, digest), last, digest(last), entry);
      DigestMapSnoc(before, last, digest);
    }
  }

  /** A name the document can list, under a digest. */
  ghost predicate Listable(name: string, digest: string -> string, own: string, safe: string -> bool) {
    HexDigest(digest(name)) && LineSafe(name) && safe(name) && name != own
  }

  lemma EntryReadBack(name: string, digest: string -> string, own: string, safe: string -> bool)
    requires Listable(name, digest, own, safe)
    ensures EntryOf(own, safe)(LineFor(digest)(name)) == Some((name, digest(name)))
    ensures Unbroken(LineFor(digest)(name))
  {
    LineRoundTrip(digest(name), name);
    PrintedLineUnbroken(digest(name), name);
  }

  /** Parsing undoes printing for every list of safe names that fit on a line. */
  lemma ParsePrintedDocument(names: seq<string>, digest: string -> string, own: string, safe: string -> bool)
    requires names != [] && NoDuplicates(names) && Ascii(PrintText(names, digest))
    requires forall i :: 0 <= i < |names| ==> Listable(names[i], digest, own, safe)
    ensures ParseDocument(EncodeAscii(PrintText(names, digest)), own, safe) == Some(DigestMap(names, digest))
  {
    var lines := Map(names, LineFor(digest));
    forall i | 0 <= i < |names|
      ensures Unbroken(lines[i]) && EntryOf(own, safe)(LineFor(digest)(names[i])) == Some((names[i], digest(names[i])))
    {
      EntryReadBack(names[i], digest, own, safe);
    }
    SplitUnlines(lines);
    AsciiRoundTrip(PrintText(names, digest));
    ParsePrinted(names, LineFor(digest), digest, EntryOf(own, safe));
    assert names[0] in DigestMap(names, digest);
  }

  lemma {:induction false} ParsedNamesListed(lines: seq<string>, entry: Reader, name: string) returns (i: nat)
    requires ParseLines(lines, entry).Some? && name in ParseLines(lines, entry).value
    ensures i < |lines| && entry(lines[i]).Some? && entry(lines[i]).value.0 == name
  {
    i := |lines| - 1;
    if entry(lines[i]).value.0 != name {
      var k := ParsedNamesListed(lines[..i], entry, name);
      i := k;
    }
  }

  lemma EntryNameLineSafe(line: string, own: string, safe: string -> bool)
    requires Unbroken(line) && EntryOf(own, safe)(line).Some?
    ensures LineSafe(EntryOf(own, safe)(line).value.0)
  {
    var name := line[66..];
    forall i | 0 <= i < |name| ensures !LineBreak(name[i]) { assert name[i] == line[i + 66]; }
  }

  /** Whatever document is accepted, the names it lists fit on a line. */
  lemma DocumentNamesLineSafe(b: Bytes, own: string, safe: string -> bool, name: string)
    requires ParseDocument(b, own, safe).Some? && name in ParseDocument(b, own, safe).value
    ensures LineSafe(name)
  {
    var lines := SplitLines(DecodeAscii(b));
    LinesUnbroken(DecodeAscii(b));
    var i := ParsedNamesListed(lines, EntryOf(own, safe), name);
    EntryNameLineSafe(lines[i], own, safe);
  }

  // ---------------------------------------------------------------------------
  // ASCII
  // ---------------------------------------------------------------------------

  lemma AsciiConcat(a: string, b: string)
    ensures Ascii(a + b) <==> Ascii(a) && Ascii(b)
  {
    var s := a + b;
    if Ascii(s) {
      forall i | 0 <= i < |a| ensures a[i] as int < 128 { assert s[i] == a[i]; }
      forall i | 0 <= i < |b| ensures b[i] as int < 128 { assert s[|a| + i] == b[i]; }
    }
  }

  lemma {:induction false} AsciiLinesIff(lines: seq<string>)
    ensures Ascii(Unlines(lines)) <==> forall i :: 0 <= i < |lines| ==> Ascii(lines[i])
  {
    if lines != [] {
      AsciiLinesIff(lines[1..]);
      AsciiConcat(lines[0] + "\n", Unlines(lines[1..]));
      AsciiConcat(lines[0], "\n");
      assert forall i :: 0 < i < |lines| ==> lines[i] == lines[1..][i - 1];
    }
  }

  lemma AsciiLineIff(digest: string, name: string)
    requires HexDigest(digest)
    ensures Ascii(PrintLine(digest, name)) <==> Ascii(name)
  {
    AsciiConcat(digest + "  ", name);
    AsciiConcat(digest, "  ");
  }

  /** The document can be encoded exactly if every name it lists is ASCII. */
  lemma AsciiText(names: seq<string>, digest: string -> string)
    requires forall n :: n in names ==> HexDigest(digest(n))
    ensures Ascii(PrintText(names, digest)) <==> forall n :: n in names ==> Ascii(n)
  {
    var lines := Map(names, LineFor(digest));
    forall i | 0 <= i < |names| ensures Ascii(lines[i]) <==> Ascii(names[i]) {
      assert names[i] in names;
      AsciiLineIff(digest(names[i]), names[i]);
    }
    AsciiLinesIff(lines);
    if forall i :: 0 <= i < |names| ==> Ascii(names[i]) {
      forall n | n in names ensures Ascii(n) {
        var i :| 0 <= i < |names| && names[i] == n;
      }
    } else {
      var i :| 0 <= i < |names| && !Ascii(names[i]);
      assert names[i] in names;
    }
  }
}
