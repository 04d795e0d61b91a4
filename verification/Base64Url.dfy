/**
 Unpadded base64url (section 5 of RFC 4648) as links.py uses it: the encoder strips the padding, the
 decoder refuses padding and the two standard-alphabet characters and puts the padding back.
 */
module Base64Url {
  import opened Wrappers

  type Sextet = x: int | 0 <= x < 64

  function SextetChar(v: Sextet): char {
    if v < 26 then 'A' + v as char
    else if v < 52 then 'a' + (v - 26) as char
    else if v < 62 then '0' + (v - 52) as char
    else if v == 62 then '-' else '_'
  }

  function CharSextet(c: char): Option<Sextet> {
    if 'A' <= c <= 'Z' then Some(c as int - 'A' as int)
    else if 'a' <= c <= 'z' then Some(c as int - 'a' as int + 26)
    else if '0' <= c <= '9' then Some(c as int - '0' as int + 52)
    else if c == '-' then Some(62)
    else if c == '_' then Some(63)
    else None
  }

  lemma CharsRoundTrip(v: Sextet)
    ensures CharSextet(SextetChar(v)) == Some(v)
  {
  }

  lemma SextetsRoundTrip(c: char)
    ensures CharSextet(c).Some? ==> SextetChar(CharSextet(c).value) == c
  {
  }

  /** The URL-safe alphabet: upper case, lower case, digits, hyphen, underscore. */
  lemma Alphabet(v: Sextet)
    ensures var c := SextetChar(v) as int;
      && (v < 26 ==> c == 0x41 + v)
      && (26 <= v < 52 ==> c == 0x61 + (v - 26))
      && (52 <= v < 62 ==> c == 0x30 + (v - 52))
      && (v == 62 ==> c == 0x2D) && (v == 63 ==> c == 0x5F)
    ensures forall c :: CharSextet(c).Some? <==>
      'A' <= c <= 'Z' || 'a' <= c <= 'z' || '0' <= c <= '9' || c == '-' || c == '_'
  {
  }

  /** The high six bits of the first byte. */
  function First(a: Byte): Sextet { a / 4 }

  /** The low two bits of one byte and the high four of the next. */
  function Second(a: Byte, b: Byte): Sextet {
    assert a % 4 <= 3 && b / 16 <= 15;
    a % 4 * 16 + b / 16
  }

  /** The low four bits of one byte and the high two of the next. */
  function Third(b: Byte, c: Byte): Sextet {
    assert b % 16 <= 15 && c / 64 <= 3;
    b % 16 * 4 + c / 64
  }

  function Fourth(c: Byte): Sextet { c % 64 }

  /** Three bytes to four sextets; a last group of one or two bytes is filled up with zero bits. */
  function ToSextets(b: Bytes): seq<Sextet> {
    if b == [] then []
    else if |b| == 1 then [First(b[0]), Second(b[0], 0)]
    else if |b| == 2 then [First(b[0]), Second(b[0], b[1]), Third(b[1], 0)]
    else [First(b[0]), Second(b[0], b[1]), Third(b[1], b[2]), Fourth(b[2])] + ToSextets(b[3..])
  }

  /** Three bytes and their four sextets are one number of twenty-four bits, most significant first. */
  lemma SameNumber(a: Byte, b: Byte, c: Byte)
    ensures First(a) * 262144 + Second(a, b) * 4096 + Third(b, c) * 64 + Fourth(c) == a * 65536 + b * 256 + c
  {
    assert a == a / 4 * 4 + a % 4 && b == b / 16 * 16 + b % 16 && c == c / 64 * 64 + c % 64;
  }

  function Byte1(p: Sextet, q: Sextet): Byte {
    assert q / 16 <= 3;
    p * 4 + q / 16
  }

  function Byte2(q: Sextet, r: Sextet): Byte {
    assert q % 16 <= 15 && r / 4 <= 15;
    q % 16 * 16 + r / 4
  }

  function Byte3(r: Sextet, t: Sextet): Byte {
    assert r % 4 <= 3;
    r % 4 * 64 + t
  }

  /** A last group of two or three sextets drops its low bits; a single one carries no byte. */
  function ToBytes(s: seq<Sextet>): Option<Bytes> {
    if s == [] then Some([])
    else if |s| == 1 then None
    else if |s| == 2 then Some([Byte1(s[0], s[1])])
    else if |s| == 3 then Some([Byte1(s[0], s[1]), Byte2(s[1], s[2])])
    else
      match ToBytes(s[4..])
      case None => None
      case Some(rest) => Some([Byte1(s[0], s[1]), Byte2(s[1], s[2]), Byte3(s[2], s[3])] + rest)
  }

  /** The bits that decoding drops are zero. */
  predicate TrailingZeros(s: seq<Sextet>) {
    if |s| < 2 then true
    else if |s| == 2 then s[1] % 16 == 0
    else if |s| == 3 then s[2] % 4 == 0
    else TrailingZeros(s[4..])
  }

  lemma GroupFirst(p: Sextet, q: Sextet, r: Sextet, t: Sextet, rest: seq<Sextet>)
    requires ToBytes(rest).Some?
    ensures ToBytes([p, q, r, t] + rest) == Some([Byte1(p, q), Byte2(q, r), Byte3(r, t)] + ToBytes(rest).value)
    ensures TrailingZeros([p, q, r, t] + rest) <==> TrailingZeros(rest)
  {
    assert ([p, q, r, t] + rest)[4..] == rest;
  }

  lemma LastOne(a: Byte, p: Sextet, q: Sextet)
    requires Byte1(p, q) == a && q % 16 == 0
    ensures ToBytes([p, q]) == Some([a]) && TrailingZeros([p, q])
  {
  }

  lemma LastTwo(a: Byte, b: Byte, p: Sextet, q: Sextet, r: Sextet)
    requires Byte1(p, q) == a && Byte2(q, r) == b && r % 4 == 0
    ensures ToBytes([p, q, r]) == Some([a, b]) && TrailingZeros([p, q, r])
  {
  }

  lemma OneToSextets(b: Bytes) returns (p: Sextet, q: Sextet)
    requires |b| == 1
    ensures ToSextets(b) == [p, q] && Byte1(p, q) == b[0] && q % 16 == 0
  {
    p, q := First(b[0]), Second(b[0], 0);
    GroupForth(b[0], 0, 0);
  }

  lemma TwoToSextets(b: Bytes) returns (p: Sextet, q: Sextet, r: Sextet)
    requires |b| == 2
    ensures ToSextets(b) == [p, q, r] && Byte1(p, q) == b[0] && Byte2(q, r) == b[1] && r % 4 == 0
  {
    p, q, r := First(b[0]), Second(b[0], b[1]), Third(b[1], 0);
    GroupForth(b[0], b[1], 0);
  }

  lemma ThreeToSextets(b: Bytes) returns (p: Sextet, q: Sextet, r: Sextet, t: Sextet)
    requires |b| >= 3
    ensures ToSextets(b) == [p, q, r, t] + ToSextets(b[3..])
    ensures Byte1(p, q) == b[0] && Byte2(q, r) == b[1] && Byte3(r, t) == b[2]
  {
    p, q, r, t := First(b[0]), Second(b[0], b[1]), Third(b[1], b[2]), Fourth(b[2]);
    GroupForth(b[0], b[1], b[2]);
  }

  lemma {:induction false} BytesRoundTrip(b: Bytes)
    ensures ToBytes(ToSextets(b)) == Some(b) && TrailingZeros(ToSextets(b))
    decreases |b|
  {
    if |b| == 1 {
      var p, q := OneToSextets(b);
      LastOne(b[0], p, q);
      assert b == [b[0]];
    } else if |b| == 2 {
      var p, q, r := TwoToSextets(b);
      LastTwo(b[0], b[1], p, q, r);
      assert b == [b[0], b[1]];
    } else if |b| >= 3 {
      var p, q, r, t := ThreeToSextets(b);
      BytesRoundTrip(b[3..]);
      GroupFirst(p, q, r, t, ToSextets(b[3..]));
      assert b == [b[0], b[1], b[2]] + b[3..];
    }
  }

  lemma {:induction false} SextetsBackIff(s: seq<Sextet>)
    requires ToBytes(s).Some?
    ensures ToSextets(ToBytes(s).value) == s <==> TrailingZeros(s)
    decreases |s|
  {
    if |s| == 2 {
      GroupBack(s[0], s[1], 0, 0);
      assert s == [s[0], s[1]];
    } else if |s| == 3 {
      GroupBack(s[0], s[1], s[2], 0);
      assert s == [s[0], s[1], s[2]];
    } else if |s| >= 4 {
      var rest := ToBytes(s[4..]).value;
      SextetsBackIff(s[4..]);
      GroupBack(s[0], s[1], s[2], s[3]);
      var b := ToBytes(s).value;
      assert b[3..] == rest;
      assert ToSextets(b) == [s[0], s[1], s[2], s[3]] + ToSextets(rest);
      assert s == [s[0], s[1], s[2], s[3]] + s[4..];
      assert ToSextets(b)[4..] == ToSextets(rest);
    }
  }

  lemma GroupForth(a: Byte, b: Byte, c: Byte)
    ensures Byte1(First(a), Second(a, b)) == a
    ensures Byte2(Second(a, b), Third(b, c)) == b
    ensures Byte3(Third(b, c), Fourth(c)) == c
    ensures Second(a, 0) % 16 == 0 && Third(b, 0) % 4 == 0
  {
  }

  lemma GroupBack(p: Sextet, q: Sextet, r: Sextet, t: Sextet)
    ensures First(Byte1(p, q)) == p
    ensures Second(Byte1(p, q), Byte2(q, r)) == q
    ensures Third(Byte2(q, r), Byte3(r, t)) == r
    ensures Fourth(Byte3(r, t)) == t
    ensures Second(Byte1(p, q), 0) == q <==> q % 16 == 0
    ensures Third(Byte2(q, r), 0) == r <==> r % 4 == 0
  {
  }

  function Chars(s: seq<Sextet>): (r: string)
    ensures |r| == |s|
  {
    seq(|s|, i requires 0 <= i < |s| => SextetChar(s[i]))
  }

  function Encode(b: Bytes): string { Chars(ToSextets(b)) }

  predicate InAlphabet(v: string) { forall i :: 0 <= i < |v| ==> CharSextet(v[i]).Some? }

  function Sextets(v: string): (r: seq<Sextet>)
    requires InAlphabet(v)
    ensures |r| == |v|
  {
    seq(|v|, i requires 0 <= i < |v| => CharSextet(v[i]).value)
  }

  /** `None` for a character outside the alphabet, padding included, and for an impossible length. */
  function Decode(v: string): Option<Bytes> { if InAlphabet(v) then ToBytes(Sextets(v)) else None }

  /** The spelling the encoder would have chosen. */
  predicate Canonical(v: string) { InAlphabet(v) && TrailingZeros(Sextets(v)) }

  lemma EncodedAlphabet(b: Bytes)
    ensures InAlphabet(Encode(b)) && Sextets(Encode(b)) == ToSextets(b)
  {
    var s := ToSextets(b);
    forall i | 0 <= i < |s| ensures CharSextet(Encode(b)[i]) == Some(s[i]) { CharsRoundTrip(s[i]); }
  }

  /** Decoding undoes encoding, for all byte strings. */
  lemma DecodeEncode(b: Bytes)
    ensures Decode(Encode(b)) == Some(b) && Canonical(Encode(b))
  {
    EncodedAlphabet(b);
    BytesRoundTrip(b);
  }

  /** Encoding undoes decoding exactly for the canonical spelling: the decoder accepts others too. */
  lemma EncodeDecodeIff(v: string)
    requires Decode(v).Some?
    ensures Encode(Decode(v).value) == v <==> Canonical(v)
  {
    var s := Sextets(v);
    SextetsBackIff(s);
    if Encode(Decode(v).value) == v {
      EncodedAlphabet(Decode(v).value);
    }
    if Canonical(v) {
      forall i | 0 <= i < |v| ensures Encode(Decode(v).value)[i] == v[i] { SextetsRoundTrip(v[i]); }
    }
  }

  /** The two differ at most in the bits of the last sextet that carry no byte. */
  predicate Alike(s: seq<Sextet>, t: seq<Sextet>)
    requires |s| == |t|
  {
    if |s| < 2 then s == t
    else if |s| == 2 then s[0] == t[0] && s[1] / 16 == t[1] / 16
    else if |s| == 3 then s[0] == t[0] && s[1] == t[1] && s[2] / 4 == t[2] / 4
    else s[..4] == t[..4] && Alike(s[4..], t[4..])
  }

  lemma SameBytes(p: Sextet, q: Sextet, r: Sextet, t: Sextet, p': Sextet, q': Sextet, r': Sextet, t': Sextet)
    ensures Byte1(p, q) == Byte1(p', q') <==> p == p' && q / 16 == q' / 16
    ensures Byte2(q, r) == Byte2(q', r') <==> q % 16 == q' % 16 && r / 4 == r' / 4
    ensures Byte3(r, t) == Byte3(r', t') <==> r % 4 == r' % 4 && t == t'
  {
    GroupBack(p, q, r, t);
    GroupBack(p', q', r', t');
  }

  lemma SameGroup(p: Sextet, q: Sextet, r: Sextet, t: Sextet, p': Sextet, q': Sextet, r': Sextet, t': Sextet)
    ensures p == p' && q == q' && r == r' && t == t' <==>
      Byte1(p, q) == Byte1(p', q') && Byte2(q, r) == Byte2(q', r') && Byte3(r, t) == Byte3(r', t')
  {
    SameBytes(p, q, r, t, p', q', r', t');
  }

  lemma SameTriple<T>(x: T, y: T, z: T, x': T, y': T, z': T)
    ensures [x, y, z] == [x', y', z'] <==> x == x' && y == y' && z == z'
  {
    if [x, y, z] == [x', y', z'] {
      assert [x, y, z][0] == x && [x, y, z][1] == y && [x, y, z][2] == z;
    }
  }

  lemma GroupAlike(a: seq<Sextet>, b: seq<Sextet>)
    requires |a| == |b| == 4
    ensures a == b <==>
      [Byte1(a[0], a[1]), Byte2(a[1], a[2]), Byte3(a[2], a[3])] ==
        [Byte1(b[0], b[1]), Byte2(b[1], b[2]), Byte3(b[2], b[3])]
  {
    assert a == b <==> a[0] == b[0] && a[1] == b[1] && a[2] == b[2] && a[3] == b[3];
    SameGroup(a[0], a[1], a[2], a[3], b[0], b[1], b[2], b[3]);
    SameTriple(Byte1(a[0], a[1]), Byte2(a[1], a[2]), Byte3(a[2], a[3]),
               Byte1(b[0], b[1]), Byte2(b[1], b[2]), Byte3(b[2], b[3]));
  }

  lemma SameLength(s: seq<Sextet>, t: seq<Sextet>)
    requires |s| == |t|
    ensures ToBytes(s).None? <==> ToBytes(t).None?
    decreases |s|
  {
    if |s| >= 4 { SameLength(s[4..], t[4..]); }
  }

  /** Two spellings of one length decode alike exactly when they differ in no bit that carries a byte. */
  lemma {:induction false} SpellingsIff(s: seq<Sextet>, t: seq<Sextet>)
    requires |s| == |t| && ToBytes(s).Some?
    ensures ToBytes(s) == ToBytes(t) <==> Alike(s, t)
    decreases |s|
  {
    SameLength(s, t);
    if |s| == 2 {
      SameBytes(s[0], s[1], 0, 0, t[0], t[1], 0, 0);
      assert ToBytes(s).value == ToBytes(t).value <==> ToBytes(s).value[0] == ToBytes(t).value[0];
    } else if |s| == 3 {
      SameBytes(s[0], s[1], s[2], 0, t[0], t[1], t[2], 0);
      assert ToBytes(s).value == ToBytes(t).value <==>
        ToBytes(s).value[0] == ToBytes(t).value[0] && ToBytes(s).value[1] == ToBytes(t).value[1];
    } else if |s| >= 4 {
      SpellingsIff(s[4..], t[4..]);
      GroupAlike(s[..4], t[..4]);
      var x, y := ToBytes(s).value, ToBytes(t).value;
      assert x[3..] == ToBytes(s[4..]).value && y[3..] == ToBytes(t[4..]).value;
      assert x == x[..3] + x[3..] && y == y[..3] + y[3..];
    }
  }

  /** The encoder never emits a dot, and nothing from no bytes only. */
  lemma EncodedPlain(b: Bytes)
    ensures '.' !in Encode(b) && (Encode(b) == "" <==> b == [])
  {
    EncodedAlphabet(b);
    forall i | 0 <= i < |Encode(b)| ensures Encode(b)[i] != '.' {
      assert CharSextet(Encode(b)[i]).Some?;
    }
  }
}
