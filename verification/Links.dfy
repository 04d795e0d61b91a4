/**
 Signed links (links.py): what a token verifies to, which refs and payloads can be signed, and which
 spellings of a token are accepted. UTF-8, HMAC (RFC 2104) and `int()` are functions of which only
 the stated laws are used.
 */
module Links {
  import opened Wrappers
  import opened Base64Url
  import Decimal
  import opened PosixPath
  import Text

  datatype Kind = Report | Artifact | Packet

  datatype Payload = Payload(kind: Kind, runId: string, ref: string, exp: int, kid: string)

  datatype LinkError =
    | NoSecret
    | UnknownKind
    | BadRunId
    | BadRef
    | BadKid
    | Malformed
    | BadSignature
    | BadPayload
    | BadExpiry
    | KidNotAccepted
    | Expired

  datatype Crypto = Crypto(utf8: string -> Bytes, text: Bytes -> string, mac: (string, Bytes) -> Bytes,
                           readInt: string -> Option<int>)

  /** A digest is never empty, `int()` reads what `str()` prints, and encoding loses no characters. */
  ghost predicate Lawful(c: Crypto) {
    && (forall secret, b :: c.mac(secret, b) != [])
    && (forall n :: c.readInt(Decimal.ShowInt(n)) == Some(n))
    && (forall s :: c.utf8(s) == [] ==> s == "")
  }

  /** `s` has a UTF-8 encoding, that is, it holds no lone surrogate. */
  ghost predicate Encodable(c: Crypto, s: string) { c.text(c.utf8(s)) == s }

  const DOMAIN := "glink"
  const VERSION := "v1"
  const DEFAULT_KID := "v1"
  const ACCEPTED_KIDS := {DEFAULT_KID}
  const PACKET_PREFIX := "knowledge://context:"
  const MAXIMUM_TOKEN_CHARS := 4096

  // ---------------------------------------------------------------------------
  // Fields
  // ---------------------------------------------------------------------------

  predicate SafeChar(c: char) {
    'A' <= c <= 'Z' || 'a' <= c <= 'z' || '0' <= c <= '9' || c == '.' || c == '_' || c == '-'
  }

  predicate SafeName(s: string, least: nat, most: nat) {
    least <= |s| <= most && forall i :: 0 <= i < |s| ==> SafeChar(s[i])
  }

  predicate RunIdOk(s: string) { SafeName(s, 8, 64) }

  predicate KidOk(s: string) { SafeName(s, 1, 32) }

  function KindText(k: Kind): string {
    match k
    case Report => "report"
    case Artifact => "artifact"
    case Packet => "packet"
  }

  function ReadKind(s: string): Option<Kind> {
    if s == KindText(Report) then Some(Report)
    else if s == KindText(Artifact) then Some(Artifact)
    else if s == KindText(Packet) then Some(Packet)
    else None
  }

  lemma KindReadBack(k: Kind)
    ensures ReadKind(KindText(k)) == Some(k) && '\n' !in KindText(k)
  {
    assert KindText(Report)[0] == 'r' && KindText(Artifact)[0] == 'a' && KindText(Packet)[0] == 'p';
  }

  // ---------------------------------------------------------------------------
  // Refs
  // ---------------------------------------------------------------------------

  predicate Printable(s: string) {
    s != "" && forall i :: 0 <= i < |s| ==> s[i] as int >= 0x20 && s[i] != '\\' && s[i] != '%'
  }

  /** validate_ref, given the prefix that packet citations start with. */
  predicate RefOk(ref: string, packetPrefix: string) {
    && Printable(ref)
    && if packetPrefix <= ref then SafeName(ref[|packetPrefix|..], 1, 64)
       else ref[0] != '/' && ".." !in PathParts(ref) && Normalize(ref) == ref
  }

  /**
   A ref that is not a packet citation is accepted exactly when it is printable and is `.` or a path
   of components none of which is empty, `.` or `..`: there is no way out of the run.
   */
  lemma RefOkIff(ref: string, packetPrefix: string)
    requires !(packetPrefix <= ref)
    ensures RefOk(ref, packetPrefix) <==> Printable(ref) && (ref == "." || Contained(Text.Split(ref, '/')))
  {
    OneDot();
    if ref != "" {
      if Contained(Text.Split(ref, '/')) { ContainedIsAccepted(ref); }
      if ".." !in PathParts(ref) && Normalize(ref) == ref { AcceptedIsContained(ref); }
    }
  }

  /** The characters of a name. */
  predicate NameChar(c: char) {
    'a' <= c <= 'z' || 'A' <= c <= 'Z' || '0' <= c <= '9' || c in {'.', '_', '-'}
  }

  lemma PrefixPrintable(prefix: string, id: string)
    requires prefix == PACKET_PREFIX && forall i :: 0 <= i < |id| ==> NameChar(id[i])
    ensures Printable(prefix + id)
  {
    PrefixChars();
    var ref := prefix + id;
    forall i | 0 <= i < |ref| ensures ref[i] as int >= 0x20 && ref[i] != '\\' && ref[i] != '%' {
      if i < |prefix| { assert ref[i] == prefix[i]; } else { assert NameChar(id[i - |prefix|]); }
    }
  }

  lemma PrefixChars()
    ensures forall i :: 0 <= i < |PACKET_PREFIX| ==>
      PACKET_PREFIX[i] as int >= 0x20 && PACKET_PREFIX[i] != '\\' && PACKET_PREFIX[i] != '%'
  {
  }

  /** A packet citation is accepted if and only if its id is a name of 1 to 64 characters. */
  lemma PacketRefIff(id: string)
    ensures RefOk(PACKET_PREFIX + id, PACKET_PREFIX) <==>
      1 <= |id| <= 64 && forall i :: 0 <= i < |id| ==> NameChar(id[i])
  {
    var prefix := PACKET_PREFIX;
    RestOf(prefix, id);
    if forall i :: 0 <= i < |id| ==> NameChar(id[i]) { PrefixPrintable(prefix, id); }
    assert forall c :: NameChar(c) <==> SafeChar(c);
  }

  lemma RestOf(prefix: string, id: string)
    ensures prefix <= prefix + id && (prefix + id)[|prefix|..] == id
  {
  }

  /** Run ids have 8 to 64 such characters, key ids 1 to 32. */
  lemma NamesAre(s: string)
    ensures RunIdOk(s) <==> 8 <= |s| <= 64 && forall i :: 0 <= i < |s| ==> NameChar(s[i])
    ensures KidOk(s) <==> 1 <= |s| <= 32 && forall i :: 0 <= i < |s| ==> NameChar(s[i])
  {
    assert forall c :: NameChar(c) <==> SafeChar(c);
  }

  /** A printable text has no control character, no backslash and no percent sign, and is not empty. */
  lemma PrintableIff(s: string)
    ensures Printable(s) <==> s != "" && forall c :: c in s ==> c >= ' ' && c != '\\' && c != '%'
  {
    if Printable(s) {
      forall c | c in s ensures c >= ' ' && c != '\\' && c != '%' {
        var i :| 0 <= i < |s| && s[i] == c;
      }
    } else if s != "" {
      var i :| 0 <= i < |s| && !(s[i] as int >= 0x20 && s[i] != '\\' && s[i] != '%');
      assert s[i] in s;
    }
  }

  // ---------------------------------------------------------------------------
  // The payload
  // ---------------------------------------------------------------------------

  predicate FieldsOk(p: Payload, packetPrefix: string) {
    RunIdOk(p.runId) && RefOk(p.ref, packetPrefix) && KidOk(p.kid)
  }

  function Fields(p: Payload): seq<string> {
    [DOMAIN, VERSION, p.kid, KindText(p.kind), p.runId, p.ref, Decimal.ShowInt(p.exp)]
  }

  function PayloadText(p: Payload): string { Text.Join("\n", Fields(p)) }

  /** The lines of a payload, in their order. */
  lemma PayloadTextIs(p: Payload)
    ensures PayloadText(p) ==
      "glink\nv1\n" + p.kid + "\n" + KindText(p.kind) + "\n" + p.runId + "\n" + p.ref + "\n" + Decimal.ShowInt(p.exp)
    ensures KindText(Report) == "report" && KindText(Artifact) == "artifact" && KindText(Packet) == "packet"
  {
    SevenJoined("glink", "v1", p.kid, KindText(p.kind), p.runId, p.ref, Decimal.ShowInt(p.exp));
    assert "glink" + "\n" + "v1" + "\n" == "glink\nv1\n";
  }

  lemma SevenJoined(a: string, b: string, c: string, d: string, e: string, f: string, g: string)
    ensures Text.Join("\n", [a, b, c, d, e, f, g]) ==
      (a + "\n" + b + "\n") + c + "\n" + d + "\n" + e + "\n" + f + "\n" + g
  {
    var s := [a, b, c, d, e, f, g];
    assert s[1..] == [b, c, d, e, f, g] && [b, c, d, e, f, g][1..] == [c, d, e, f, g];
    assert [c, d, e, f, g][1..] == [d, e, f, g] && [d, e, f, g][1..] == [e, f, g];
    assert [e, f, g][1..] == [f, g] && [f, g][1..] == [g];
    assert Text.Join("\n", [g]) == g && Text.Join("\n", [f, g]) == f + "\n" + g;
    assert Text.Join("\n", [e, f, g]) == e + "\n" + Text.Join("\n", [f, g]);
    assert Text.Join("\n", [d, e, f, g]) == d + "\n" + Text.Join("\n", [e, f, g]);
    assert Text.Join("\n", [c, d, e, f, g]) == c + "\n" + Text.Join("\n", [d, e, f, g]);
    assert Text.Join("\n", [b, c, d, e, f, g]) == b + "\n" + Text.Join("\n", [c, d, e, f, g]);
  }

  lemma SafeHasNoNewline(s: string, least: nat, most: nat)
    requires SafeName(s, least, most)
    ensures '\n' !in s
  {
  }

  lemma NumberHasNoNewline(n: int)
    ensures '\n' !in Decimal.ShowInt(n)
  {
    var digits := Decimal.Show(if n < 0 then -n else n);
    assert forall i :: 0 <= i < |digits| ==> digits[i] != '\n';
  }

  /** No field of a valid payload holds the separator, so the joined text splits into the fields again. */
  lemma PayloadSplits(p: Payload, packetPrefix: string)
    requires FieldsOk(p, packetPrefix)
    ensures Text.Split(PayloadText(p), '\n') == Fields(p)
  {
    SafeHasNoNewline(p.kid, 1, 32);
    SafeHasNoNewline(p.runId, 8, 64);
    KindReadBack(p.kind);
    NumberHasNoNewline(p.exp);
    assert '\n' !in p.ref;
    assert '\n' !in DOMAIN && '\n' !in VERSION;
    Text.SplitJoin(Fields(p), '\n');
  }

  lemma PayloadInjective(p: Payload, q: Payload, packetPrefix: string)
    requires FieldsOk(p, packetPrefix) && FieldsOk(q, packetPrefix) && PayloadText(p) == PayloadText(q)
    ensures p == q
  {
    PayloadSplits(p, packetPrefix);
    PayloadSplits(q, packetPrefix);
    var f, g := Fields(p), Fields(q);
    assert f[2] == g[2] && f[3] == g[3] && f[4] == g[4] && f[5] == g[5] && f[6] == g[6];
    KindReadBack(p.kind);
    KindReadBack(q.kind);
    ShowIntInjective(p.exp, q.exp);
  }

  lemma SignShows(n: int)
    ensures Decimal.IsDigit(Decimal.ShowInt(n)[0]) <==> n >= 0
  {
  }

  lemma ShowIntInjective(m: int, n: int)
    requires Decimal.ShowInt(m) == Decimal.ShowInt(n)
    ensures m == n
  {
    SignShows(m);
    SignShows(n);
    var s, t := Decimal.ShowInt(m), Decimal.ShowInt(n);
    if m < 0 {
      assert s[1..] == Decimal.Show(-m) && t[1..] == Decimal.Show(-n);
      Decimal.ShowInjective(-m, -n);
    } else {
      Decimal.ShowInjective(m, n);
    }
  }

  // ---------------------------------------------------------------------------
  // Tokens
  // ---------------------------------------------------------------------------

  function TokenOf(secret: string, payload: Bytes, c: Crypto): string {
    Encode(payload) + "." + Encode(c.mac(secret, payload))
  }

  function SignLink(secret: string, kind: string, runId: string, ref: string, kid: string, ttl: int, now: int,
      c: Crypto, packetPrefix: string): Result<string, LinkError>
  {
    if secret == "" then Err(NoSecret)
    else
      match ReadKind(kind)
      case None => Err(UnknownKind)
      case Some(k) =>
        if !RunIdOk(runId) then Err(BadRunId)
        else if !RefOk(ref, packetPrefix) then Err(BadRef)
        else if !KidOk(kid) then Err(BadKid)
        else Ok(TokenOf(secret, c.utf8(PayloadText(Payload(k, runId, ref, now + ttl, kid))), c))
  }

  /** The part of verify_link after the signature has been checked. */
  function ReadPayload(fields: seq<string>, now: int, c: Crypto, packetPrefix: string): Result<Payload, LinkError> {
    if |fields| != 7 || fields[0] != DOMAIN || fields[1] != VERSION then Err(BadPayload)
    else
      match c.readInt(fields[6])
      case None => Err(BadExpiry)
      case Some(exp) =>
        match ReadKind(fields[3])
        case None => Err(UnknownKind)
        case Some(kind) =>
          if !RunIdOk(fields[4]) then Err(BadRunId)
          else if !RefOk(fields[5], packetPrefix) then Err(BadRef)
          else if !KidOk(fields[2]) then Err(BadKid)
          else if fields[2] !in ACCEPTED_KIDS then Err(KidNotAccepted)
          else if exp <= now then Err(Expired)
          else Ok(Payload(kind, fields[4], fields[5], exp, fields[2]))
  }

  function VerifyParts(secret: string, parts: seq<string>, now: int, c: Crypto, packetPrefix: string):
    Result<Payload, LinkError>
  {
    if |parts| != 2 || parts[0] == "" || parts[1] == "" then Err(Malformed)
    else
      match (Decode(parts[0]), Decode(parts[1]))
      case (Some(payload), Some(signature)) =>
        if signature != c.mac(secret, payload) then Err(BadSignature)
        else ReadPayload(Text.Split(c.text(payload), '\n'), now, c, packetPrefix)
      case _ => Err(Malformed)
  }

  function VerifyLink(secret: string, token: string, now: int, c: Crypto, packetPrefix: string):
    Result<Payload, LinkError>
  {
    if secret == "" then Err(NoSecret)
    else if token == "" || |token| > MAXIMUM_TOKEN_CHARS then Err(Malformed)
    else VerifyParts(secret, Text.Split(token, '.'), now, c, packetPrefix)
  }

  lemma PairSplits(left: string, right: string)
    requires '.' !in left && '.' !in right
    ensures Text.Split(left + "." + right, '.') == [left, right]
  {
    Text.SplitFirst(left, '.', right);
    Text.SplitFirst(right, '.', "");
  }

  lemma TokenSplits(secret: string, payload: Bytes, c: Crypto)
    ensures Text.Split(TokenOf(secret, payload, c), '.') == [Encode(payload), Encode(c.mac(secret, payload))]
  {
    var signature := c.mac(secret, payload);
    EncodedPlain(payload);
    EncodedPlain(signature);
    PairSplits(Encode(payload), Encode(signature));
  }

  /** A signed payload reads back as itself, or fails for its key id or its age. */
  lemma ReadSigned(p: Payload, now: int, c: Crypto, packetPrefix: string)
    requires FieldsOk(p, packetPrefix) && c.readInt(Decimal.ShowInt(p.exp)) == Some(p.exp)
    ensures ReadPayload(Fields(p), now, c, packetPrefix) ==
      if p.kid !in ACCEPTED_KIDS then Err(KidNotAccepted) else if p.exp <= now then Err(Expired) else Ok(p)
  {
    KindReadBack(p.kind);
  }

  lemma VerifySignedParts(secret: string, p: Payload, now: int, c: Crypto, packetPrefix: string)
    requires Lawful(c) && FieldsOk(p, packetPrefix) && Encodable(c, PayloadText(p))
    ensures var payload := c.utf8(PayloadText(p));
      VerifyParts(secret, [Encode(payload), Encode(c.mac(secret, payload))], now, c, packetPrefix) ==
        if p.kid !in ACCEPTED_KIDS then Err(KidNotAccepted) else if p.exp <= now then Err(Expired) else Ok(p)
  {
    var payload := c.utf8(PayloadText(p));
    var signature := c.mac(secret, payload);
    DecodeEncode(payload);
    DecodeEncode(signature);
    EncodedPlain(payload);
    EncodedPlain(signature);
    assert PayloadText(p) != "" && payload != [] && signature != [];
    PayloadSplits(p, packetPrefix);
    ReadSigned(p, now, c, packetPrefix);
  }

  /**
   What a signed link verifies to at any later time: its payload, unless the token is too long, the
   key id is not accepted or the link has expired.
   */
  lemma VerifySigned(secret: string, kind: Kind, runId: string, ref: string, kid: string, ttl: int, now: int,
      later: int, c: Crypto, packetPrefix: string)
    requires Lawful(c)
    requires SignLink(secret, KindText(kind), runId, ref, kid, ttl, now, c, packetPrefix).Ok?
    requires Encodable(c, PayloadText(Payload(kind, runId, ref, now + ttl, kid)))
    ensures var token := SignLink(secret, KindText(kind), runId, ref, kid, ttl, now, c, packetPrefix).value;
      VerifyLink(secret, token, later, c, packetPrefix) ==
        if |token| > MAXIMUM_TOKEN_CHARS then Err(Malformed)
        else if kid !in ACCEPTED_KIDS then Err(KidNotAccepted)
        else if now + ttl <= later then Err(Expired)
        else Ok(Payload(kind, runId, ref, now + ttl, kid))
  {
    KindReadBack(kind);
    var p := Payload(kind, runId, ref, now + ttl, kid);
    TokenSplits(secret, c.utf8(PayloadText(p)), c);
    VerifySignedParts(secret, p, later, c, packetPrefix);
  }

  /**
   With the program's own prefix for packet citations and its own key id: what is signed with valid
   fields is what verifies while the link is unexpired and no longer than permitted.
   */
  lemma LinkRoundTrip(secret: string, kind: Kind, runId: string, ref: string, ttl: int, now: int, later: int, c: Crypto)
    requires Lawful(c) && secret != "" && RunIdOk(runId) && RefOk(ref, PACKET_PREFIX)
    requires Encodable(c, PayloadText(Payload(kind, runId, ref, now + ttl, DEFAULT_KID)))
    ensures var token := SignLink(secret, KindText(kind), runId, ref, DEFAULT_KID, ttl, now, c, PACKET_PREFIX);
      && token.Ok?
      && (VerifyLink(secret, token.value, later, c, PACKET_PREFIX) ==
            Ok(Payload(kind, runId, ref, now + ttl, DEFAULT_KID)) <==>
          |token.value| <= MAXIMUM_TOKEN_CHARS && later < now + ttl)
  {
    DefaultKid();
    SignsIff(secret, KindText(kind), runId, ref, DEFAULT_KID, ttl, now, c, PACKET_PREFIX);
    VerifySigned(secret, kind, runId, ref, DEFAULT_KID, ttl, now, later, c, PACKET_PREFIX);
  }

  /** So a packet citation can be signed, and what is signed verifies. */
  lemma PacketLinkRoundTrip(secret: string, runId: string, id: string, ttl: int, now: int, later: int, c: Crypto)
    requires Lawful(c) && secret != "" && RunIdOk(runId)
    requires 1 <= |id| <= 64 && forall i :: 0 <= i < |id| ==> NameChar(id[i])
    requires Encodable(c, PayloadText(Payload(Packet, runId, PACKET_PREFIX + id, now + ttl, DEFAULT_KID)))
    ensures var token := SignLink(secret, "packet", runId, PACKET_PREFIX + id, DEFAULT_KID, ttl, now, c, PACKET_PREFIX);
      && token.Ok?
      && (|token.value| <= 4096 && later < now + ttl ==>
            VerifyLink(secret, token.value, later, c, PACKET_PREFIX) ==
              Ok(Payload(Packet, runId, PACKET_PREFIX + id, now + ttl, DEFAULT_KID)))
  {
    PacketRefIff(id);
    LinkRoundTrip(secret, Packet, runId, PACKET_PREFIX + id, ttl, now, later, c);
  }

  lemma DefaultKid()
    ensures KidOk(DEFAULT_KID) && DEFAULT_KID in ACCEPTED_KIDS
  {
  }

  /** Signing succeeds exactly for a known kind and valid fields. */
  lemma SignsIff(secret: string, kind: string, runId: string, ref: string, kid: string, ttl: int, now: int,
      c: Crypto, packetPrefix: string)
    ensures SignLink(secret, kind, runId, ref, kid, ttl, now, c, packetPrefix).Ok? <==>
      secret != "" && (exists k :: kind == KindText(k)) && RunIdOk(runId) && RefOk(ref, packetPrefix) && KidOk(kid)
  {
    if k :| kind == KindText(k) { KindReadBack(k); }
  }

  /**
   A token that verifies carries a policy-conforming payload under this secret's signature, and is
   the token the signer makes of that payload exactly when both of its segments are canonical.
   */
  lemma VerifiedToken(secret: string, token: string, now: int, c: Crypto, packetPrefix: string)
    returns (payload: Bytes, left: string, right: string)
    requires VerifyLink(secret, token, now, c, packetPrefix).Ok?
    ensures token == left + "." + right
    ensures Decode(left) == Some(payload) && Decode(right) == Some(c.mac(secret, payload))
    ensures var p := VerifyLink(secret, token, now, c, packetPrefix).value;
      && FieldsOk(p, packetPrefix) && p.kid in ACCEPTED_KIDS && now < p.exp
      && SameFields(Text.Split(c.text(payload), '\n'), p)
    ensures token == TokenOf(secret, payload, c) <==> Canonical(left) && Canonical(right)
  {
    var parts := Text.Split(token, '.');
    left, right := parts[0], parts[1];
    payload := Decode(left).value;
    Text.JoinSplit(token, '.');
    assert parts == [left, right];
    assert Text.Join(".", [left, right]) == left + "." + right by {
      assert [left, right][1..] == [right];
    }
    VerifiedFields(Text.Split(c.text(payload), '\n'), now, c, packetPrefix);
    SpellingIff(left, right, payload, c.mac(secret, payload));
  }

  lemma VerifiedFields(fields: seq<string>, now: int, c: Crypto, packetPrefix: string)
    requires ReadPayload(fields, now, c, packetPrefix).Ok?
    ensures var p := ReadPayload(fields, now, c, packetPrefix).value;
      && FieldsOk(p, packetPrefix) && p.kid in ACCEPTED_KIDS && now < p.exp
      && SameFields(fields, p)
  {
  }

  /** The signed fields are those of `p`, all but the spelling of the expiry. */
  predicate SameFields(fields: seq<string>, p: Payload) { |fields| == 7 && fields[..6] == Fields(p)[..6] }

  lemma SameSegments(left: string, right: string, left': string, right': string)
    requires '.' !in left && '.' !in right && '.' !in left' && '.' !in right'
    ensures left + "." + right == left' + "." + right' <==> left == left' && right == right'
  {
    PairSplits(left, right);
    PairSplits(left', right');
    if left + "." + right == left' + "." + right' {
      assert [left, right][0] == [left', right'][0] && [left, right][1] == [left', right'][1];
    }
  }

  lemma SpellingIff(left: string, right: string, payload: Bytes, signature: Bytes)
    requires Decode(left) == Some(payload) && Decode(right) == Some(signature)
    ensures left + "." + right == Encode(payload) + "." + Encode(signature) <==> Canonical(left) && Canonical(right)
  {
    EncodeDecodeIff(left);
    EncodeDecodeIff(right);
    EncodedPlain(payload);
    EncodedPlain(signature);
    DecodedPlain(left);
    DecodedPlain(right);
    SameSegments(left, right, Encode(payload), Encode(signature));
  }

  lemma DecodedPlain(v: string)
    requires Decode(v).Some?
    ensures '.' !in v
  {
    forall i | 0 <= i < |v| ensures v[i] != '.' { assert CharSextet(v[i]).Some?; }
  }
}
