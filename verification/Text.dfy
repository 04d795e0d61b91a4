/** String operations of the Python standard library that several components share. */
module Text {
  import opened Wrappers

  /** `c.isspace()`, which is also what the regular expression class `\s` matches. */
  predicate IsSpace(c: char) {
    var n := c as int;
    || 0x9 <= n <= 0xD || 0x1C <= n <= 0x20 || n == 0x85 || n == 0xA0 || n == 0x1680
    || 0x2000 <= n <= 0x200A || n == 0x2028 || n == 0x2029 || n == 0x202F || n == 0x205F || n == 0x3000
  }

  /** `not s.strip()`. */
  predicate Blank(s: string) { forall i :: 0 <= i < |s| ==> IsSpace(s[i]) }

  predicate OccursAt(s: string, t: string, i: int) {
    0 <= i <= |s| - |t| && s[i..i + |t|] == t
  }

  predicate EndsWith(s: string, t: string) { |t| <= |s| && s[|s| - |t|..] == t }

  /** `t in s`. */
  predicate Contains(s: string, t: string) {
    exists i :: 0 <= i <= |s| && OccursAt(s, t, i)
  }

  /** An occurrence at or after `from` leads to the first such occurrence. */
  lemma {:induction false} FirstOccurrence(s: string, t: string, from: int, i: int) returns (j: int)
    requires from <= i && OccursAt(s, t, i)
    ensures from <= j <= i && OccursAt(s, t, j) && forall k :: from <= k < j ==> !OccursAt(s, t, k)
    decreases i - from
  {
    if k :| from <= k < i && OccursAt(s, t, k) {
      j := FirstOccurrence(s, t, from, k);
    } else {
      j := i;
    }
  }

  lemma ContainsTransitive(s: string, t: string, u: string)
    requires Contains(s, t) && Contains(t, u)
    ensures Contains(s, u)
  {
    var i :| OccursAt(s, t, i);
    var j :| OccursAt(t, u, j);
    assert OccursAt(s, t, i) && OccursAt(t, u, j);
    assert forall k :: 0 <= k < |u| ==> u[k] == t[j..j + |u|][k] == t[j + k];
    assert forall k :: 0 <= k < |t| ==> t[k] == s[i..i + |t|][k] == s[i + k];
    assert s[i + j..i + j + |u|] == u;
    assert OccursAt(s, u, i + j);
  }

  lemma OccursChar(s: string, t: string, i: int, k: int)
    ensures OccursAt(s, t, i) && 0 <= k < |t| ==> s[i + k] == t[k]
  {
    if OccursAt(s, t, i) && 0 <= k < |t| {
      assert s[i..i + |t|][k] == s[i + k];
    }
  }

  /** An occurrence that lies inside the part of `s` that starts at `n` is an occurrence in that part. */
  lemma OccursInPart(s: string, n: nat, part: string, t: string, i: int)
    requires n + |part| <= |s| && s[n..n + |part|] == part
    ensures n <= i && i + |t| <= n + |part| && OccursAt(s, t, i) ==> OccursAt(part, t, i - n)
  {
    if n <= i && i + |t| <= n + |part| && OccursAt(s, t, i) {
      var at := i - n;
      forall k | 0 <= k < |t| ensures part[at + k] == t[k] {
        OccursChar(s, t, i, k);
        assert s[n..n + |part|][at + k] == s[i + k];
      }
      assert part[at..at + |t|] == t;
    }
  }

  lemma ContainsPart(a: string, t: string, b: string)
    ensures Contains(a + t + b, t)
  {
    assert (a + t + b)[|a|..|a| + |t|] == t;
    assert OccursAt(a + t + b, t, |a|);
  }

  // ---------------------------------------------------------------------------
  // strip
  // ---------------------------------------------------------------------------

  /** How far into `s`, from `i` on, white space reaches. */
  function LeadEnd(s: string, i: nat): (r: nat)
    requires i <= |s|
    ensures i <= r <= |s|
    decreases |s| - i
  {
    if i < |s| && IsSpace(s[i]) then LeadEnd(s, i + 1) else i
  }

  /** Where the white space that ends `s[..j]` begins. */
  function TrailStart(s: string, j: nat): (r: nat)
    requires j <= |s|
    ensures r <= j
  {
    if j > 0 && IsSpace(s[j - 1]) then TrailStart(s, j - 1) else j
  }

  function LStrip(s: string): string { s[LeadEnd(s, 0)..] }

  function RStrip(s: string): string { s[..TrailStart(s, |s|)] }

  /** `s.strip()`. */
  function Strip(s: string): string { LStrip(RStrip(s)) }

  lemma {:induction false} LeadEndSpec(s: string, i: nat)
    requires i <= |s|
    ensures var r := LeadEnd(s, i);
      (forall k :: i <= k < r ==> IsSpace(s[k])) && (r < |s| ==> !IsSpace(s[r]))
    decreases |s| - i
  {
    if i < |s| && IsSpace(s[i]) { LeadEndSpec(s, i + 1); }
  }

  lemma {:induction false} TrailStartSpec(s: string, j: nat)
    requires j <= |s|
    ensures var r := TrailStart(s, j);
      (forall k :: r <= k < j ==> IsSpace(s[k])) && (r > 0 ==> !IsSpace(s[r - 1]))
  {
    if j > 0 && IsSpace(s[j - 1]) { TrailStartSpec(s, j - 1); }
  }

  lemma LStripSpec(s: string)
    ensures var r := LStrip(s); |r| <= |s| && r == s[|s| - |r|..] && (r != "" ==> !IsSpace(r[0]))
  {
    LeadEndSpec(s, 0);
  }

  lemma RStripSpec(s: string)
    ensures var r := RStrip(s); r <= s && (r != "" ==> !IsSpace(r[|r| - 1]))
  {
    TrailStartSpec(s, |s|);
  }

  lemma PrefixSplits(m: string, s: string)
    requires m <= s
    ensures s == m + s[|m|..]
  {
  }

  lemma SuffixSplits(m: string, k: nat)
    requires k <= |m|
    ensures m == m[..k] + m[k..]
  {
  }

  /** What is stripped surrounds the rest. */
  lemma StripParts(s: string) returns (lead: string, trail: string)
    ensures s == lead + Strip(s) + trail
  {
    var m := RStrip(s);
    RStripSpec(s);
    PrefixSplits(m, s);
    SuffixSplits(m, LeadEnd(m, 0));
    lead, trail := m[..LeadEnd(m, 0)], s[|m|..];
  }

  lemma StripEnds(s: string)
    ensures var r := Strip(s);
      Contains(s, r) && |r| <= |s| && (r != "" ==> !IsSpace(r[0]) && !IsSpace(r[|r| - 1]))
  {
    var lead, trail := StripParts(s);
    ContainsPart(lead, Strip(s), trail);
    RStripSpec(s);
    LStripSpec(RStrip(s));
    if Strip(s) != "" { LastOfSuffix(RStrip(s), LeadEnd(RStrip(s), 0)); }
  }

  lemma LastOfSuffix(m: string, k: nat)
    requires k < |m|
    ensures m[k..][|m[k..]| - 1] == m[|m| - 1]
  {
  }

  /** Strip finds any occurrence that neither begins nor ends with white space. */
  lemma ContainsStripped(s: string, t: string)
    requires t != "" && !IsSpace(t[0]) && !IsSpace(t[|t| - 1]) && Contains(s, t)
    ensures Contains(Strip(s), t)
  {
    var i :| OccursAt(s, t, i);
    OccursRStripped(s, t, i);
    OccursLStripped(RStrip(s), t, i);
  }

  lemma OccursRStripped(s: string, t: string, i: int)
    requires t != "" && !IsSpace(t[|t| - 1]) && OccursAt(s, t, i)
    ensures OccursAt(RStrip(s), t, i)
  {
    TrailStartSpec(s, |s|);
    OccursChar(s, t, i, |t| - 1);
    assert RStrip(s)[i..i + |t|] == s[i..i + |t|];
  }

  lemma OccursLStripped(s: string, t: string, i: int)
    requires t != "" && !IsSpace(t[0]) && OccursAt(s, t, i)
    ensures Contains(LStrip(s), t)
  {
    LeadEndSpec(s, 0);
    OccursChar(s, t, i, 0);
    var n := LeadEnd(s, 0);
    assert LStrip(s)[i - n..i - n + |t|] == s[i..i + |t|];
    assert OccursAt(LStrip(s), t, i - n);
  }

  // ---------------------------------------------------------------------------
  // White-space collapsing
  // ---------------------------------------------------------------------------

  /** `re.sub(r'\s+', ' ', s)`. */
  function Squeeze(s: string): string {
    if s == "" then ""
    else if !IsSpace(s[0]) then [s[0]] + Squeeze(s[1..])
    else if |s| > 1 && IsSpace(s[1]) then Squeeze(s[1..])
    else " " + Squeeze(s[1..])
  }

  /** `re.sub(r'\s+', ' ', s).strip()`, which equals `' '.join(s.split())`. */
  function Collapse(s: string): string { Strip(Squeeze(s)) }

  lemma SqueezeCons(s: string) returns (x: string)
    requires s != ""
    ensures Squeeze(s) == x + Squeeze(s[1..])
  {
    if !IsSpace(s[0]) {
      x := [s[0]];
    } else if |s| > 1 && IsSpace(s[1]) {
      x := "";
    } else {
      x := " ";
    }
  }

  lemma {:induction false} SqueezeSuffix(a: string, b: string) returns (x: string)
    ensures Squeeze(a + b) == x + Squeeze(b)
    decreases |a|
  {
    if a == "" {
      assert a + b == b;
      x := "";
    } else {
      assert (a + b)[1..] == a[1..] + b;
      var y := SqueezeCons(a + b);
      var z := SqueezeSuffix(a[1..], b);
      x := y + z;
    }
  }

  lemma {:induction false} TrailStartCons(c: char, s: string, j: nat)
    requires j <= |s|
    ensures TrailStart([c] + s, j + 1) ==
      if TrailStart(s, j) > 0 then TrailStart(s, j) + 1 else if IsSpace(c) then 0 else 1
  {
    if j > 0 {
      assert ([c] + s)[j] == s[j - 1];
      TrailStartCons(c, s, j - 1);
    } else {
      assert TrailStart([c] + s, 0) == 0;
    }
  }

  lemma RStripCons(c: char, s: string)
    ensures RStrip([c] + s) == if RStrip(s) == "" && IsSpace(c) then "" else [c] + RStrip(s)
  {
    TrailStartCons(c, s, |s|);
  }

  lemma {:induction false} SqueezePrefix(b: string, c: string)
    ensures RStrip(Squeeze(b)) <= Squeeze(b + c)
    decreases |b|
  {
    if b != "" {
      var s := b + c;
      assert s[1..] == b[1..] + c && s[0] == b[0];
      SqueezePrefix(b[1..], c);
      if !IsSpace(b[0]) {
        RStripCons(b[0], Squeeze(b[1..]));
      } else if |b| > 1 && IsSpace(b[1]) {
        assert s[1] == b[1];
      } else {
        RStripCons(' ', Squeeze(b[1..]));
        if |b| == 1 {
          assert Squeeze(b[1..]) == "";
        } else {
          assert s[1] == b[1];
        }
      }
    }
  }

  /** The stripped form of a slice occurs in the squeezed whole. */
  lemma SqueezeSlice(a: string, b: string, c: string)
    ensures Contains(Squeeze(a + b + c), Strip(Squeeze(b)))
  {
    assert a + b + c == a + (b + c);
    var x := SqueezeSuffix(a, b + c);
    SqueezePrefix(b, c);
    ContainsStripOfPrefix(x, Squeeze(b + c), RStrip(Squeeze(b)));
  }

  lemma ContainsStripOfPrefix(x: string, w: string, m: string)
    requires m <= w
    ensures Contains(x + w, LStrip(m))
  {
    LStripSpec(m);
    var y := LStrip(m);
    var lead, rest := m[..|m| - |y|], w[|m|..];
    assert x + w == (x + lead) + y + rest;
    ContainsPart(x + lead, y, rest);
  }

  /** Collapsing a contiguous slice gives a contiguous part of the collapsed whole. */
  lemma CollapseSlice(whole: string, i: nat, j: nat)
    requires i <= j <= |whole| && Collapse(whole[i..j]) != ""
    ensures Contains(Collapse(whole), Collapse(whole[i..j]))
  {
    var b := whole[i..j];
    assert whole == whole[..i] + b + whole[j..];
    SqueezeSlice(whole[..i], b, whole[j..]);
    StripEnds(Squeeze(b));
    ContainsStripped(Squeeze(whole), Collapse(b));
  }

  /** No two neighbouring spaces, and no white space other than the space itself. */
  ghost predicate Squeezed(s: string) {
    && (forall i :: 0 <= i < |s| && IsSpace(s[i]) ==> s[i] == ' ')
    && (forall i :: 0 <= i < |s| - 1 ==> !(IsSpace(s[i]) && IsSpace(s[i + 1])))
  }

  lemma {:induction false} SqueezeIsSqueezed(s: string)
    ensures Squeezed(Squeeze(s))
    ensures s != "" && !IsSpace(s[0]) ==> Squeeze(s) != "" && Squeeze(s)[0] == s[0]
    decreases |s|
  {
    if s != "" {
      SqueezeIsSqueezed(s[1..]);
    }
  }

  lemma {:induction false} SqueezedFixed(s: string)
    requires Squeezed(s)
    ensures Squeeze(s) == s
    decreases |s|
  {
    if s != "" {
      var t := s[1..];
      assert Squeezed(t) by {
        assert forall i :: 0 <= i < |t| ==> t[i] == s[i + 1];
      }
      SqueezedFixed(t);
      assert s == [s[0]] + t;
    }
  }

  lemma StripFixed(s: string)
    requires s == "" || (!IsSpace(s[0]) && !IsSpace(s[|s| - 1]))
    ensures Strip(s) == s
  {
  }

  lemma PartSqueezed(s: string, t: string)
    requires Squeezed(s) && Contains(s, t)
    ensures Squeezed(t)
  {
    var i :| OccursAt(s, t, i);
    assert OccursAt(s, t, i);
    assert forall k :: 0 <= k < |t| ==> t[k] == s[i..i + |t|][k] == s[i + k];
  }

  /** Collapsing is idempotent: collapsed text is its own normal form. */
  lemma CollapseIdempotent(s: string)
    ensures Collapse(Collapse(s)) == Collapse(s)
  {
    var r := Collapse(s);
    SqueezeIsSqueezed(s);
    StripEnds(Squeeze(s));
    PartSqueezed(Squeeze(s), r);
    SqueezedFixed(r);
    StripFixed(r);
  }

  /** `s.split()`: the runs of characters that are not white space. */
  function Words(s: string): (r: seq<string>)
    ensures s != "" && !IsSpace(s[0]) ==> r != []
  {
    if s == "" then []
    else if IsSpace(s[0]) then Words(s[1..])
    else if |s| == 1 || IsSpace(s[1]) then [[s[0]]] + Words(s[1..])
    else
      var ws := Words(s[1..]);
      [[s[0]] + ws[0]] + ws[1..]
  }

  predicate Spaceless(w: string) { w != "" && forall i :: 0 <= i < |w| ==> !IsSpace(w[i]) }

  lemma {:induction false} WordsSpaceless(s: string)
    ensures forall i :: 0 <= i < |Words(s)| ==> Spaceless(Words(s)[i])
    ensures Words(s) == [] <==> Blank(s)
    decreases |s|
  {
    if s != "" {
      WordsSpaceless(s[1..]);
      if IsSpace(s[0]) {
        assert Blank(s) <==> Blank(s[1..]);
      }
    }
  }

  /** A text, perhaps after a space, perhaps before one. */
  function Framed(before: bool, x: string, after: bool): string {
    (if before then " " else "") + x + (if after then " " else "")
  }

  lemma FramedCons(c: char, x: string, after: bool)
    ensures Framed(false, [c] + " " + x, after) == [c] + Framed(true, x, after)
    ensures Framed(false, [c] + x, after) == [c] + Framed(false, x, after)
    ensures Framed(true, x, after) == " " + Framed(false, x, after)
    ensures Framed(false, [c], true) == [c] + " " && Framed(false, [c], false) == [c]
  {
  }

  /** The words of `s` between single spaces, before the ends are stripped. */
  function Spaced(s: string): string
    requires s != ""
  {
    Framed(IsSpace(s[0]), Join(" ", Words(s)), IsSpace(s[|s| - 1]))
  }

  lemma JoinCons(w: string, ws: seq<string>)
    ensures Join(" ", [w] + ws) == if ws == [] then w else w + " " + Join(" ", ws)
  {
    assert ([w] + ws)[1..] == ws;
  }

  lemma JoinLonger(c: char, ws: seq<string>)
    requires ws != []
    ensures Join(" ", [[c] + ws[0]] + ws[1..]) == [c] + Join(" ", ws)
  {
    JoinCons([c] + ws[0], ws[1..]);
    JoinCons(ws[0], ws[1..]);
    assert ws == [ws[0]] + ws[1..];
  }

  lemma WordsCons(c: char, t: string)
    requires t != ""
    ensures IsSpace(c) ==> Words([c] + t) == Words(t)
    ensures !IsSpace(c) && IsSpace(t[0]) ==> Words([c] + t) == [[c]] + Words(t)
    ensures !IsSpace(c) && !IsSpace(t[0]) ==> Words(t) != [] && Words([c] + t) == [[c] + Words(t)[0]] + Words(t)[1..]
  {
    assert ([c] + t)[1..] == t && ([c] + t)[1] == t[0];
  }

  lemma SqueezeOne(c: char, t: string)
    requires t != ""
    ensures Squeeze([c] + t) ==
      if !IsSpace(c) then [c] + Squeeze(t) else if IsSpace(t[0]) then Squeeze(t) else " " + Squeeze(t)
  {
    assert ([c] + t)[1..] == t && ([c] + t)[1] == t[0];
  }

  /** One character more. */
  lemma SpacedCons(c: char, t: string)
    requires t != "" && Squeeze(t) == if Words(t) == [] then " " else Spaced(t)
    ensures var s := [c] + t; Squeeze(s) == if Words(s) == [] then " " else Spaced(s)
  {
    var s := [c] + t;
    var x, after := Join(" ", Words(t)), IsSpace(t[|t| - 1]);
    assert s[|s| - 1] == t[|t| - 1];
    WordsCons(c, t);
    SqueezeOne(c, t);
    WordsSpaceless(t);
    FramedCons(c, x, after);
    if !IsSpace(c) {
      if IsSpace(t[0]) { JoinCons([c], Words(t)); } else { JoinLonger(c, Words(t)); }
    }
  }

  lemma {:induction false} SqueezeIsSpaced(s: string)
    requires s != ""
    ensures Squeeze(s) == if Words(s) == [] then " " else Spaced(s)
    decreases |s|
  {
    if |s| > 1 {
      SqueezeIsSpaced(s[1..]);
      SpacedCons(s[0], s[1..]);
      assert s == [s[0]] + s[1..];
    } else {
      assert s[1..] == "" && Squeeze("") == "" && Words("") == [];
      JoinCons(s, []);
      FramedCons(s[0], "", false);
    }
  }

  lemma {:induction false} JoinEnds(ws: seq<string>)
    requires ws != [] && forall i :: 0 <= i < |ws| ==> Spaceless(ws[i])
    ensures var j := Join(" ", ws); j != "" && !IsSpace(j[0]) && !IsSpace(j[|j| - 1])
    decreases |ws|
  {
    assert Spaceless(ws[0]);
    if |ws| > 1 {
      JoinEnds(ws[1..]);
      var rest := Join(" ", ws[1..]);
      assert Join(" ", ws)[|Join(" ", ws)| - 1] == rest[|rest| - 1];
    }
  }

  /** White space around a text is all that strip removes. */
  lemma StripAround(lead: string, x: string, trail: string)
    requires Blank(lead) && Blank(trail) && x != "" && !IsSpace(x[0]) && !IsSpace(x[|x| - 1])
    ensures Strip(lead + x + trail) == x
  {
    var s := lead + x + trail;
    var n := |lead| + |x|;
    TrailStartSpec(s, |s|);
    assert s[n - 1] == x[|x| - 1] && forall k :: n <= k < |s| ==> s[k] == trail[k - n];
    assert TrailStart(s, |s|) == n && RStrip(s) == lead + x;
    var m := lead + x;
    LeadEndSpec(m, 0);
    assert m[|lead|] == x[0] && forall k :: 0 <= k < |lead| ==> m[k] == lead[k];
    assert LeadEnd(m, 0) == |lead|;
  }

  lemma StripBlank(s: string)
    requires Blank(s)
    ensures Strip(s) == ""
  {
    TrailStartSpec(s, |s|);
  }

  /** Collapsing is `' '.join(s.split())`. */
  lemma CollapseIsWords(s: string)
    ensures Collapse(s) == Join(" ", Words(s))
  {
    if s != "" {
      SqueezeIsSpaced(s);
      WordsSpaceless(s);
      if Words(s) == [] {
        StripBlank(" ");
      } else {
        JoinEnds(Words(s));
        StripFramed(IsSpace(s[0]), Join(" ", Words(s)), IsSpace(s[|s| - 1]));
      }
    }
  }

  lemma StripFramed(before: bool, x: string, after: bool)
    requires x != "" && !IsSpace(x[0]) && !IsSpace(x[|x| - 1])
    ensures Strip(Framed(before, x, after)) == x
  {
    StripAround(if before then " " else "", x, if after then " " else "");
  }

  // ---------------------------------------------------------------------------
  // replace
  // ---------------------------------------------------------------------------

  /** `s.replace(pat, rep)`. */
  function Replace(s: string, pat: string, rep: string): string
    requires pat != ""
  {
    if s == "" then ""
    else if pat <= s then rep + Replace(s[|pat|..], pat, rep)
    else [s[0]] + Replace(s[1..], pat, rep)
  }

  lemma OccursOneOn(s: string, t: string, i: int)
    requires s != ""
    ensures OccursAt(s[1..], t, i) ==> OccursAt(s, t, i + 1)
  {
  }

  /** The text up to a first occurrence of the pattern stays, the occurrence is replaced, and so on behind it. */
  lemma {:induction false} ReplaceOne(a: string, pat: string, b: string, rep: string)
    requires pat != "" && forall i: int :: i < |a| ==> !OccursAt(a + pat + b, pat, i)
    ensures Replace(a + pat + b, pat, rep) == a + rep + Replace(b, pat, rep)
    decreases |a|
  {
    if a == "" {
      PatternFirst(pat, b, rep);
    } else {
      assert (a + pat + b)[1..] == a[1..] + pat + b;
      forall i: int | i < |a[1..]| ensures !OccursAt(a[1..] + pat + b, pat, i) { OccursOneOn(a + pat + b, pat, i); }
      ReplaceOne(a[1..], pat, b, rep);
      NotFirst(a, pat, b, rep);
      assert [a[0]] + (a[1..] + rep + Replace(b, pat, rep)) == a + rep + Replace(b, pat, rep);
    }
  }

  lemma PatternFirst(pat: string, b: string, rep: string)
    requires pat != ""
    ensures Replace("" + pat + b, pat, rep) == "" + rep + Replace(b, pat, rep)
  {
    assert "" + pat + b == pat + b && (pat + b)[|pat|..] == b;
  }

  lemma NotFirst(a: string, pat: string, b: string, rep: string)
    requires a != "" && pat != "" && !OccursAt(a + pat + b, pat, 0)
    ensures Replace(a + pat + b, pat, rep) == [a[0]] + Replace((a + pat + b)[1..], pat, rep)
  {
    PrefixOccurs(a + pat + b, pat);
  }

  lemma PrefixOccurs(s: string, t: string)
    ensures t <= s ==> OccursAt(s, t, 0)
  {
  }

  /** The replacement text and the string `d` share neither of the characters they begin with. */
  predicate Clear(rep: string, d: string) {
    rep != "" && d != "" && d[0] !in rep && rep[0] !in d
  }

  lemma {:induction false} ReplacePrefix(s: string, pat: string, rep: string, x: string)
    requires pat != "" && rep != "" && rep[0] !in x && x <= Replace(s, pat, rep)
    ensures x <= s
    decreases |s|
  {
    if x != "" && s != "" {
      assert x[0] in x && x[0] == Replace(s, pat, rep)[0];
      assert !(pat <= s);
      assert Replace(s, pat, rep)[1..] == Replace(s[1..], pat, rep);
      ReplacePrefix(s[1..], pat, rep, x[1..]);
      assert x == [x[0]] + x[1..] && s == [s[0]] + s[1..];
    }
  }

  lemma OccursInTail(part: string, rest: string, d: string, i: int)
    requires OccursAt(part + rest, d, i) && i >= |part|
    ensures OccursAt(rest, d, i - |part|)
  {
    assert (part + rest)[i..i + |d|] == rest[i - |part|..i - |part| + |d|];
  }

  lemma OccursFirstChar(s: string, d: string, i: int)
    requires OccursAt(s, d, i) && d != ""
    ensures s[i] == d[0] && (i == 0 ==> d[1..] <= s[1..])
  {
    assert s[i..i + |d|][0] == s[i];
    if i == 0 { assert s[1..][..|d| - 1] == s[..|d|][1..]; }
  }

  /** Replacing removes the pattern itself, and brings back no marker that was absent before. */
  lemma {:induction false} ReplaceClears(s: string, pat: string, rep: string, d: string)
    requires pat != "" && Clear(rep, d) && (d == pat || !Contains(s, d))
    ensures !Contains(Replace(s, pat, rep), d)
    decreases |s|
  {
    if s != "" {
      var n := if pat <= s then |pat| else 1;
      var part := if pat <= s then rep else [s[0]];
      var rest := s[n..];
      var r := Replace(rest, pat, rep);
      assert Replace(s, pat, rep) == part + r;
      if d != pat { PartAvoids(s, rest, n, d); }
      ReplaceClears(rest, pat, rep, d);
      forall i ensures !OccursAt(part + r, d, i) {
        ClearsAt(s, pat, rep, d, part, rest, r, i);
      }
    }
  }

  lemma ClearsAt(s: string, pat: string, rep: string, d: string, part: string, rest: string, r: string, i: int)
    requires s != "" && pat != "" && Clear(rep, d) && (d == pat || !Contains(s, d))
    requires r == Replace(rest, pat, rep) && !Contains(r, d)
    requires if pat <= s then part == rep else part == [s[0]] && rest == s[1..]
    ensures !OccursAt(part + r, d, i)
  {
    if OccursAt(part + r, d, i) {
      if i >= |part| {
        OccursInTail(part, r, d, i);
      } else {
        OccursFirstChar(part + r, d, i);
        assert (part + r)[i] == part[i];
        if !(pat <= s) {
          assert (part + r)[1..] == r;
          ReplacePrefix(rest, pat, rep, d[1..]);
          OccursAtStart(s, d);
        }
      }
    }
  }

  lemma OccursAtStart(s: string, d: string)
    requires s != "" && d != "" && s[0] == d[0] && d[1..] <= s[1..]
    ensures d <= s && OccursAt(s, d, 0)
  {
    assert s == [s[0]] + s[1..] && d == [d[0]] + d[1..];
  }

  lemma PartAvoids(s: string, rest: string, n: nat, d: string)
    requires n <= |s| && rest == s[n..] && !Contains(s, d)
    ensures !Contains(rest, d)
  {
    forall i ensures !OccursAt(rest, d, i) {
      if OccursAt(rest, d, i) {
        assert s[n + i..n + i + |d|] == rest[i..i + |d|];
        assert OccursAt(s, d, n + i);
      }
    }
  }

  lemma {:induction false} ReplaceFixed(s: string, pat: string, rep: string)
    requires pat != "" && !Contains(s, pat)
    ensures Replace(s, pat, rep) == s
    decreases |s|
  {
    if s != "" {
      assert pat <= s ==> OccursAt(s, pat, 0);
      PartAvoids(s, s[1..], 1, pat);
      ReplaceFixed(s[1..], pat, rep);
    }
  }

  // ---------------------------------------------------------------------------
  // Splitting and joining
  // ---------------------------------------------------------------------------

  /** `s.split(sep)` for a one-character separator. */
  function Split(s: string, sep: char): (r: seq<string>)
    ensures r != []
  {
    if s == "" then [""]
    else
      var rest := Split(s[1..], sep);
      if s[0] == sep then [""] + rest else [[s[0]] + rest[0]] + rest[1..]
  }

  /** `sep.join(parts)`. */
  function Join(sep: string, parts: seq<string>): string {
    if parts == [] then "" else if |parts| == 1 then parts[0] else parts[0] + sep + Join(sep, parts[1..])
  }

  lemma {:induction false} SplitFirst(a: string, sep: char, b: string)
    requires sep !in a
    ensures Split(a, sep) == [a] && Split(a + [sep] + b, sep) == [a] + Split(b, sep)
  {
    if a == "" {
      assert a + [sep] + b == [sep] + b && ([sep] + b)[1..] == b;
    } else {
      var s := a + [sep] + b;
      assert s[1..] == a[1..] + [sep] + b && s[0] == a[0];
      SplitFirst(a[1..], sep, b);
      assert [a[0]] + a[1..] == a;
    }
  }

  /** Splitting undoes joining when no part holds the separator. */
  lemma {:induction false} SplitJoin(parts: seq<string>, sep: char)
    requires parts != [] && forall i :: 0 <= i < |parts| ==> sep !in parts[i]
    ensures Split(Join([sep], parts), sep) == parts
    decreases |parts|
  {
    if |parts| == 1 {
      SplitFirst(parts[0], sep, "");
    } else {
      SplitJoin(parts[1..], sep);
      SplitFirst(parts[0], sep, Join([sep], parts[1..]));
      assert parts == [parts[0]] + parts[1..];
    }
  }

  /** Joining undoes splitting, and no part holds the separator. */
  lemma {:induction false} JoinSplit(s: string, sep: char)
    ensures Join([sep], Split(s, sep)) == s
    ensures forall i :: 0 <= i < |Split(s, sep)| ==> sep !in Split(s, sep)[i]
  {
    if s != "" {
      var rest := Split(s[1..], sep);
      JoinSplit(s[1..], sep);
      assert s == [s[0]] + s[1..];
      if s[0] == sep {
        assert ([""] + rest)[1..] == rest;
      } else {
        var parts := [[s[0]] + rest[0]] + rest[1..];
        assert parts[1..] == rest[1..];
        if |rest| > 1 {
          assert Join([sep], parts) == ([s[0]] + rest[0]) + [sep] + Join([sep], rest[1..]);
          assert Join([sep], rest) == rest[0] + [sep] + Join([sep], rest[1..]);
        }
      }
    }
  }
}
