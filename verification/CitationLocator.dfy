/**
 Finding the context block that a citation excerpt was taken from (citation_locator.py, with
 verify_excerpt of knowledge_manager.py). The locator filters the blocks by a 36-character
 alphanumeric prefix before it compares whole excerpts; the lemmas compare it with a scan that
 simply tries every block.
 */
module CitationLocator {
  import opened Wrappers
  import opened Text
  import opened KnowledgeContext

  const EXCERPT_PREFIX_CHARS := 36

  /** Whitespace-collapsed containment; an empty excerpt never verifies. */
  predicate VerifyExcerpt(excerpt: string, chunk: string) {
    Collapse(excerpt) != "" && Contains(Collapse(chunk), Collapse(excerpt))
  }

  predicate IsAlnum(c: char) { 'A' <= c <= 'Z' || 'a' <= c <= 'z' || '0' <= c <= '9' }

  function KeepAlnum(s: string): string {
    if s == "" then "" else (if IsAlnum(s[0]) then [s[0]] else "") + KeepAlnum(s[1..])
  }

  function NormalizeAlnum(text: string): string { KeepAlnum(Collapse(text)) }

  function ExcerptPrefix(excerpt: string): string {
    var n := NormalizeAlnum(excerpt);
    if |n| <= EXCERPT_PREFIX_CHARS then n else n[..EXCERPT_PREFIX_CHARS]
  }

  /** Some block text holds the prefix; the empty prefix is never looked for. */
  predicate PrefixMatches(prefix: string, block: string) {
    prefix != "" && Contains(NormalizeAlnum(block), prefix)
  }

  /** The positions, from `from` on, of the blocks that pass the test. */
  function Positions(blocks: seq<string>, test: string -> bool, from: nat): (r: seq<nat>)
    requires from <= |blocks|
    ensures forall i :: 0 <= i < |r| ==> from <= r[i] < |blocks| && test(blocks[r[i]])
    ensures forall p :: from <= p < |blocks| && test(blocks[p]) ==> p in r
    ensures forall i, j :: 0 <= i < j < |r| ==> r[i] < r[j]
    decreases |blocks| - from
  {
    if from == |blocks| then []
    else
      var rest := Positions(blocks, test, from + 1);
      if test(blocks[from]) then [from] + rest else rest
  }

  function PrefixMatchPositions(blocks: seq<string>, prefix: string): seq<nat> {
    Positions(blocks, block => PrefixMatches(prefix, block), 0)
  }

  /** The first listed position whose block verifies the whole excerpt, else the first listed. */
  function PreferVerbatim(blocks: seq<string>, positions: seq<nat>, excerpt: string, i: nat): (p: nat)
    requires positions != [] && i <= |positions| && forall k :: 0 <= k < |positions| ==> positions[k] < |blocks|
    ensures p in positions
    decreases |positions| - i
  {
    if i == |positions| then positions[0]
    else if VerifyExcerpt(excerpt, blocks[positions[i]]) then positions[i]
    else PreferVerbatim(blocks, positions, excerpt, i + 1)
  }

  datatype MatchResult = MatchResult(blockIndex: nat, blockText: string)

  function MatchBlock(blocks: seq<string>, excerpt: string, sourceIndex: Option<int>): Option<MatchResult> {
    if blocks == [] then None
    else
      var positions := PrefixMatchPositions(blocks, ExcerptPrefix(excerpt));
      if positions != [] then
        var p := PreferVerbatim(blocks, positions, excerpt, 0);
        Some(MatchResult(p, blocks[p]))
      else if sourceIndex.Some? && 1 <= sourceIndex.value <= |blocks| then
        Some(MatchResult(sourceIndex.value - 1, blocks[sourceIndex.value - 1]))
      else None
  }

  datatype CitationClass = Exact | Fuzzy | NoMatch

  function ClassifyCitation(excerpt: string, block: string): CitationClass {
    if VerifyExcerpt(excerpt, block) then Exact
    else if PrefixMatches(ExcerptPrefix(excerpt), block) then Fuzzy
    else NoMatch
  }

  /** `i` is the first block that verifies the excerpt: the answer of the exhaustive scan. */
  ghost predicate FirstVerbatim(blocks: seq<string>, excerpt: string, i: int) {
    && 0 <= i < |blocks| && VerifyExcerpt(excerpt, blocks[i])
    && forall k :: 0 <= k < i ==> !VerifyExcerpt(excerpt, blocks[k])
  }

  // ---------------------------------------------------------------------------
  // The prefix filter loses nothing
  // ---------------------------------------------------------------------------

  lemma {:induction false} KeepAlnumConcat(a: string, b: string)
    ensures KeepAlnum(a + b) == KeepAlnum(a) + KeepAlnum(b)
    decreases |a|
  {
    if a == "" {
      assert a + b == b;
    } else {
      var s := a + b;
      assert s[1..] == a[1..] + b && s[0] == a[0];
      KeepAlnumConcat(a[1..], b);
      var head := if IsAlnum(a[0]) then [a[0]] else "";
      assert KeepAlnum(s) == head + (KeepAlnum(a[1..]) + KeepAlnum(b));
      assert KeepAlnum(a) == head + KeepAlnum(a[1..]);
    }
  }

  lemma KeepAlnumContains(s: string, t: string)
    requires Contains(s, t)
    ensures Contains(KeepAlnum(s), KeepAlnum(t))
  {
    var i :| OccursAt(s, t, i);
    assert OccursAt(s, t, i);
    var a, c := s[..i], s[i + |t|..];
    assert s == a + (t + c);
    KeepAlnumConcat(a, t + c);
    KeepAlnumConcat(t, c);
    assert KeepAlnum(s) == KeepAlnum(a) + KeepAlnum(t) + KeepAlnum(c);
    ContainsPart(KeepAlnum(a), KeepAlnum(t), KeepAlnum(c));
  }

  lemma PrefixContained(x: string, y: string)
    requires Contains(x, y) && KeepAlnum(y) != ""
    ensures var n := KeepAlnum(y); var p := if |n| <= EXCERPT_PREFIX_CHARS then n else n[..EXCERPT_PREFIX_CHARS];
      p != "" && Contains(KeepAlnum(x), p)
  {
    var n := KeepAlnum(y);
    var p := if |n| <= EXCERPT_PREFIX_CHARS then n else n[..EXCERPT_PREFIX_CHARS];
    KeepAlnumContains(x, y);
    assert n == "" + p + n[|p|..];
    ContainsPart("", p, n[|p|..]);
    ContainsTransitive(KeepAlnum(x), n, p);
  }

  /** A block that verifies an excerpt with an alphanumeric character passes the prefix filter. */
  lemma VerbatimPassesFilter(excerpt: string, block: string)
    requires VerifyExcerpt(excerpt, block) && NormalizeAlnum(excerpt) != ""
    ensures PrefixMatches(ExcerptPrefix(excerpt), block)
  {
    PrefixContained(Collapse(block), Collapse(excerpt));
  }

  lemma {:induction false} PreferVerbatimFinds(
      blocks: seq<string>, positions: seq<nat>, excerpt: string, i: nat, k: nat)
    requires forall j :: 0 <= j < |positions| ==> positions[j] < |blocks|
    requires forall j, l :: 0 <= j < l < |positions| ==> positions[j] < positions[l]
    requires FirstVerbatim(blocks, excerpt, k) && i <= |positions| && k in positions[i..]
    ensures PreferVerbatim(blocks, positions, excerpt, i) == k
    decreases |positions| - i
  {
    var j :| i <= j < |positions| && positions[j] == k;
    if j > i {
      assert positions[i] < k;
      assert positions[i + 1..][j - (i + 1)] == k;
      PreferVerbatimFinds(blocks, positions, excerpt, i + 1, k);
    }
  }

  /** For an excerpt with an alphanumeric character the locator is the exhaustive scan. */
  lemma MatchIsScan(blocks: seq<string>, excerpt: string, sourceIndex: Option<int>, k: nat)
    requires NormalizeAlnum(excerpt) != "" && FirstVerbatim(blocks, excerpt, k)
    ensures MatchBlock(blocks, excerpt, sourceIndex) == Some(MatchResult(k, blocks[k]))
    ensures ClassifyCitation(excerpt, blocks[k]) == Exact
  {
    VerbatimPassesFilter(excerpt, blocks[k]);
    var positions := PrefixMatchPositions(blocks, ExcerptPrefix(excerpt));
    assert k in positions && positions[0..] == positions;
    PreferVerbatimFinds(blocks, positions, excerpt, 0, k);
  }

  /** And the scan finds nothing exactly when the located block, if any, is not an exact match. */
  lemma NotExactIffScanFails(blocks: seq<string>, excerpt: string, sourceIndex: Option<int>)
    requires NormalizeAlnum(excerpt) != ""
    ensures (exists k :: 0 <= k < |blocks| && VerifyExcerpt(excerpt, blocks[k])) <==>
      var m := MatchBlock(blocks, excerpt, sourceIndex);
      m.Some? && ClassifyCitation(excerpt, m.value.blockText) == Exact
  {
    if k :| 0 <= k < |blocks| && VerifyExcerpt(excerpt, blocks[k]) {
      var f := FirstVerbatimExists(blocks, excerpt, k);
      MatchIsScan(blocks, excerpt, sourceIndex, f);
    }
  }

  lemma {:induction false} FirstVerbatimExists(blocks: seq<string>, excerpt: string, k: nat) returns (f: nat)
    requires k < |blocks| && VerifyExcerpt(excerpt, blocks[k])
    ensures f <= k && FirstVerbatim(blocks, excerpt, f)
    decreases k
  {
    if j :| 0 <= j < k && VerifyExcerpt(excerpt, blocks[j]) {
      f := FirstVerbatimExists(blocks, excerpt, j);
    } else {
      f := k;
    }
  }

  /**
   The exact reach of the agreement. An excerpt that verifies somewhere is located there without
   help from the rank if and only if it has an ASCII alphanumeric character.
   */
  lemma AgreesIffAlphanumeric(blocks: seq<string>, excerpt: string, k: nat)
    requires FirstVerbatim(blocks, excerpt, k)
    ensures (forall sourceIndex :: MatchBlock(blocks, excerpt, sourceIndex) == Some(MatchResult(k, blocks[k]))) <==>
      NormalizeAlnum(excerpt) != ""
  {
    if NormalizeAlnum(excerpt) != "" {
      forall sourceIndex ensures MatchBlock(blocks, excerpt, sourceIndex) == Some(MatchResult(k, blocks[k])) {
        MatchIsScan(blocks, excerpt, sourceIndex, k);
      }
    } else {
      assert MatchBlock(blocks, excerpt, None) == None;
    }
  }

  /** An excerpt that verifies and is not located: it has no alphanumeric to look for. */
  lemma PunctuationNotLocated()
    ensures FirstVerbatim(["?"], "?", 0) && MatchBlock(["?"], "?", None) == None
    ensures NormalizeAlnum("?") == ""
  {
    assert "?"[1..] == "" && Squeeze("?") == "?";
    assert Collapse("?") == "?" by { StripFixed("?"); }
    assert OccursAt("?", "?", 0);
  }

  // ---------------------------------------------------------------------------
  // The other answers
  // ---------------------------------------------------------------------------

  /** The letters and digits of a text are those of its collapsed form. */
  lemma AlnumCollapsed(s: string)
    ensures NormalizeAlnum(s) == KeepAlnum(s)
  {
    CollapseIsWords(s);
    AlnumOfWords(s);
  }

  lemma {:induction false} AlnumOfWords(s: string)
    ensures KeepAlnum(Join(" ", Words(s))) == KeepAlnum(s)
    decreases |s|
  {
    if s != "" {
      var c, t := s[0], s[1..];
      AlnumOfWords(t);
      if !IsSpace(c) {
        if t == "" || IsSpace(t[0]) {
          JoinCons([c], Words(t));
          AlnumOfFirst(c, Join(" ", Words(t)));
        } else {
          JoinLonger(c, Words(t));
          AlnumFirst(c, Join(" ", Words(t)));
        }
      }
    }
  }

  lemma AlnumFirst(c: char, t: string)
    ensures KeepAlnum([c] + t) == (if IsAlnum(c) then [c] else "") + KeepAlnum(t)
  {
    assert ([c] + t)[1..] == t;
  }

  lemma AlnumOfFirst(c: char, t: string)
    ensures KeepAlnum([c] + " " + t) == (if IsAlnum(c) then [c] else "") + KeepAlnum(t)
    ensures KeepAlnum([c]) == (if IsAlnum(c) then [c] else "") + KeepAlnum("")
  {
    assert [c] + " " + t == [c] + (" " + t);
    AlnumFirst(c, " " + t);
    AlnumFirst(' ', t);
    AlnumFirst(c, "");
    assert [c] + "" == [c];
  }

  /** What is looked for: the first 36 ASCII letters and digits of the excerpt, if it has any. */
  lemma PrefixIs(excerpt: string)
    ensures var p := ExcerptPrefix(excerpt);
      p <= KeepAlnum(excerpt) && |p| == if |KeepAlnum(excerpt)| < 36 then |KeepAlnum(excerpt)| else 36
    ensures forall c :: IsAlnum(c) <==> 'a' <= c <= 'z' || 'A' <= c <= 'Z' || '0' <= c <= '9'
  {
    AlnumCollapsed(excerpt);
  }

  /** A block is a candidate if the letters and digits looked for follow each other in its own. */
  lemma CandidateIff(excerpt: string, block: string)
    ensures PrefixMatches(ExcerptPrefix(excerpt), block) <==>
      KeepAlnum(excerpt) != "" && Contains(KeepAlnum(block), ExcerptPrefix(excerpt))
  {
    PrefixIs(excerpt);
    AlnumCollapsed(block);
  }

  /** `k` is the first candidate. */
  ghost predicate FirstCandidate(blocks: seq<string>, excerpt: string, k: int) {
    && 0 <= k < |blocks| && PrefixMatches(ExcerptPrefix(excerpt), blocks[k])
    && forall i :: 0 <= i < k ==> !PrefixMatches(ExcerptPrefix(excerpt), blocks[i])
  }

  lemma {:induction false} NoneVerbatim(blocks: seq<string>, positions: seq<nat>, excerpt: string, i: nat)
    requires positions != [] && i <= |positions| && forall k :: 0 <= k < |positions| ==> positions[k] < |blocks|
    requires forall k :: 0 <= k < |blocks| ==> !VerifyExcerpt(excerpt, blocks[k])
    ensures PreferVerbatim(blocks, positions, excerpt, i) == positions[0]
    decreases |positions| - i
  {
    if i < |positions| { NoneVerbatim(blocks, positions, excerpt, i + 1); }
  }

  /** If no block verifies the excerpt, the first candidate is located, and it is a fuzzy match. */
  lemma FuzzyLocated(blocks: seq<string>, excerpt: string, sourceIndex: Option<int>, k: nat)
    requires forall i :: 0 <= i < |blocks| ==> !VerifyExcerpt(excerpt, blocks[i])
    requires FirstCandidate(blocks, excerpt, k)
    ensures MatchBlock(blocks, excerpt, sourceIndex) == Some(MatchResult(k, blocks[k]))
    ensures ClassifyCitation(excerpt, blocks[k]) == Fuzzy
  {
    var positions := PrefixMatchPositions(blocks, ExcerptPrefix(excerpt));
    assert k in positions;
    NoneVerbatim(blocks, positions, excerpt, 0);
    var j :| 0 <= j < |positions| && positions[j] == k;
    assert PrefixMatches(ExcerptPrefix(excerpt), blocks[positions[0]]) && positions[0] <= positions[j];
  }

  lemma {:induction false} NoPositions(blocks: seq<string>, test: string -> bool, from: nat)
    requires from <= |blocks| && forall i :: from <= i < |blocks| ==> !test(blocks[i])
    ensures Positions(blocks, test, from) == []
    decreases |blocks| - from
  {
    if from < |blocks| { NoPositions(blocks, test, from + 1); }
  }

  /** Without a candidate the claimed rank decides, counted from one; out of range it locates nothing. */
  lemma RankLocates(blocks: seq<string>, excerpt: string, sourceIndex: Option<int>)
    requires forall i :: 0 <= i < |blocks| ==> !PrefixMatches(ExcerptPrefix(excerpt), blocks[i])
    ensures MatchBlock(blocks, excerpt, sourceIndex) ==
      match sourceIndex
      case Some(n) => if 1 <= n <= |blocks| then Some(MatchResult(n - 1, blocks[n - 1])) else None
      case None => None
  {
    NoPositions(blocks, block => PrefixMatches(ExcerptPrefix(excerpt), block), 0);
  }

  /** A block that does not verify the excerpt is a fuzzy match if it is a candidate, else none. */
  lemma ClassifiedIff(excerpt: string, block: string)
    ensures var c := ClassifyCitation(excerpt, block);
      && (c == Exact <==> Collapse(excerpt) != "" && Contains(Collapse(block), Collapse(excerpt)))
      && (c == Fuzzy <==> c != Exact && PrefixMatches(ExcerptPrefix(excerpt), block))
  {
  }

  // ---------------------------------------------------------------------------
  // From the rendered context to the citation
  // ---------------------------------------------------------------------------

  /** An excerpt that is a re-wrapped contiguous slice of a block verifies in it, if and only if it is not blank. */
  lemma SliceVerifies(block: string, i: nat, j: nat, excerpt: string)
    requires i <= j <= |block| && Collapse(excerpt) == Collapse(block[i..j])
    ensures VerifyExcerpt(excerpt, block) <==> Collapse(excerpt) != ""
  {
    if Collapse(excerpt) != "" { CollapseSlice(block, i, j); }
  }

  lemma SliceOfMiddle(lead: string, text: string, rest: string, i: nat, j: nat)
    requires i <= j <= |text|
    ensures (lead + text + rest)[|lead| + i..|lead| + j] == text[i..j]
  {
  }

  /** Text stripped of everything has no alphanumeric character either. */
  lemma AlnumNotBlank(s: string)
    requires NormalizeAlnum(s) != ""
    ensures Collapse(s) != ""
  {
  }

  /**
   The whole path of a quotation: rendered into the prompt, parsed back, located and classified.
   A slice of the sanitized text of entry n is found in the first block that holds it, at or
   before n, and is exact.
   */
  lemma QuotationLocated(preamble: string, entries: seq<Entry>, n: nat, i: nat, j: nat, excerpt: string,
      sourceIndex: Option<int>)
    requires '<' !in preamble && n < |entries|
    requires forall e :: 0 <= e < |entries| ==> WellTagged(entries[e])
    requires i <= j <= |Sanitize(entries[n].text)|
    requires Collapse(excerpt) == Collapse(Sanitize(entries[n].text)[i..j]) && NormalizeAlnum(excerpt) != ""
    ensures exists k: nat ::
      && k <= n && FirstVerbatim(Bodies(entries), excerpt, k)
      && MatchBlock(ParseContext(BuildContext(preamble, entries)), excerpt, sourceIndex)
           == Some(MatchResult(k, "\n" + Sanitize(entries[k].text) + "\n"))
      && ClassifyCitation(excerpt, "\n" + Sanitize(entries[k].text) + "\n") == Exact
  {
    var bodies := Bodies(entries);
    SliceOfMiddle("\n", Sanitize(entries[n].text), "\n", i, j);
    AlnumNotBlank(excerpt);
    SliceVerifies(bodies[n], 1 + i, 1 + j, excerpt);
    var k := FirstVerbatimExists(bodies, excerpt, n);
    MatchIsScan(bodies, excerpt, sourceIndex, k);
    assert bodies[k] == Body(entries[k]);
    ContextRoundTrip(preamble, entries);
  }
}
