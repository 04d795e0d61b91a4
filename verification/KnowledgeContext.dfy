/**
 The retrieved-context string of a turn: how knowledge_manager.py renders ranked entries into
 it (_build_context_string, _sanitize_retrieved) and how citation_locator.py recovers one block
 per entry from it (parse_context_blocks).

 The delimiters are parameters of the definitions; `WRAPPER` and `RULES` hold the strings that
 the program uses. The preamble is any text without a `<`.
 */
module KnowledgeContext {
  import opened Wrappers
  import opened Text

  /** The opening tag up to its attributes, the `>` that ends it, and the closing tag. */
  datatype Wrapper = Wrapper(open: string, angle: string, close: string) {
    ghost predicate Proper() {
      && open != "" && open[0] == '<'
      && |angle| == 1 && angle[0] == '>'
      && close != "" && close[0] == '<' && (forall j :: 0 < j < |close| ==> close[j] != '<')
      && '\n' !in close
    }
  }

  const WRAPPER := Wrapper("<knowledge-context", ">", "</knowledge-context>")

  lemma CloseOnce()
    ensures forall j :: 0 < j < |WRAPPER.close| ==> WRAPPER.close[j] != '<'
  {
  }

  lemma CloseOnOneLine()
    ensures '\n' !in WRAPPER.close
  {
  }

  lemma WrapperProper()
    ensures WRAPPER.Proper()
  {
    CloseOnce();
    CloseOnOneLine();
  }

  // ---------------------------------------------------------------------------
  // Sanitizing
  // ---------------------------------------------------------------------------

  /** Replace every `pat` by `rep`. */
  datatype Rule = Rule(pat: string, rep: string)

  const OPEN_RULE := Rule("<knowledge-context", "&lt;knowledge-context")
  const CLOSE_RULE := Rule("</knowledge-context>", "&lt;/knowledge-context>")
  const BEGIN_RULE := Rule("|BEGIN CONTEXT|", "[BEGIN DATA]")
  const END_RULE := Rule("|END CONTEXT|", "[END DATA]")
  const RULES := [OPEN_RULE, CLOSE_RULE, BEGIN_RULE, END_RULE]

  function ApplyRules(s: string, rules: seq<Rule>): string
    requires forall i :: 0 <= i < |rules| ==> rules[i].pat != ""
    decreases |rules|
  {
    if rules == [] then s else ApplyRules(Replace(s, rules[0].pat, rules[0].rep), rules[1..])
  }

  /** No rule can bring back what it, or a rule before it, has removed. */
  ghost predicate Settled(rules: seq<Rule>) {
    && (forall i :: 0 <= i < |rules| ==> rules[i].pat != "")
    && (forall i, j :: 0 <= i <= j < |rules| ==> Clear(rules[j].rep, rules[i].pat))
  }

  /** Patterns begin with `<` or `|`, which no replacement holds, and replacements with `&` or `[`. */
  ghost predicate Guarded(r: Rule) {
    && r.pat != "" && (r.pat[0] == '<' || r.pat[0] == '|') && '&' !in r.pat && '[' !in r.pat
    && r.rep != "" && (r.rep[0] == '&' || r.rep[0] == '[') && '<' !in r.rep && '|' !in r.rep
  }

  lemma OpenPattern()
    ensures var s := "<knowledge-context"; '&' !in s && '[' !in s
  {
  }

  lemma OpenReplacement()
    ensures var s := "&lt;knowledge-context"; '<' !in s && '|' !in s
  {
  }

  lemma OpenGuarded()
    ensures Guarded(OPEN_RULE)
  {
    OpenPattern();
    OpenReplacement();
  }

  lemma ClosePattern()
    ensures var s := "</knowledge-context>"; '&' !in s && '[' !in s
  {
  }

  lemma CloseReplacement()
    ensures var s := "&lt;/knowledge-context>"; '<' !in s && '|' !in s
  {
  }

  lemma CloseGuarded()
    ensures Guarded(CLOSE_RULE)
  {
    ClosePattern();
    CloseReplacement();
  }

  lemma BeginPattern()
    ensures var s := "|BEGIN CONTEXT|"; '&' !in s && '[' !in s
  {
  }

  lemma BeginReplacement()
    ensures var s := "[BEGIN DATA]"; '<' !in s && '|' !in s
  {
  }

  lemma BeginGuarded()
    ensures Guarded(BEGIN_RULE)
  {
    BeginPattern();
    BeginReplacement();
  }

  lemma EndPattern()
    ensures var s := "|END CONTEXT|"; '&' !in s && '[' !in s
  {
  }

  lemma EndReplacement()
    ensures var s := "[END DATA]"; '<' !in s && '|' !in s
  {
  }

  lemma EndGuarded()
    ensures Guarded(END_RULE)
  {
    EndPattern();
    EndReplacement();
  }

  lemma RulesSettled()
    ensures Settled(RULES) && RULES[1].pat == WRAPPER.close
  {
    OpenGuarded();
    CloseGuarded();
    BeginGuarded();
    EndGuarded();
    GuardedSettled(RULES);
  }

  lemma GuardedSettled(rules: seq<Rule>)
    requires forall i :: 0 <= i < |rules| ==> Guarded(rules[i])
    ensures Settled(rules)
  {
    forall i, j | 0 <= i <= j < |rules| ensures Clear(rules[j].rep, rules[i].pat) {
      assert Guarded(rules[i]) && Guarded(rules[j]);
    }
  }

  function Sanitize(text: string): string { Strip(ApplyRules(text, RULES)) }

  /** Absent before, absent after, when every replacement is clear of `d`. */
  lemma {:induction false} RulesKeepAbsent(s: string, rules: seq<Rule>, d: string)
    requires forall i :: 0 <= i < |rules| ==> rules[i].pat != "" && Clear(rules[i].rep, d)
    requires !Contains(s, d)
    ensures !Contains(ApplyRules(s, rules), d)
    decreases |rules|
  {
    if rules != [] {
      ReplaceClears(s, rules[0].pat, rules[0].rep, d);
      RulesKeepAbsent(Replace(s, rules[0].pat, rules[0].rep), rules[1..], d);
    }
  }

  lemma {:induction false} RulesRemove(s: string, rules: seq<Rule>, k: nat)
    requires Settled(rules) && k < |rules|
    ensures !Contains(ApplyRules(s, rules), rules[k].pat)
    decreases |rules|
  {
    var t := Replace(s, rules[0].pat, rules[0].rep);
    if k == 0 {
      ReplaceClears(s, rules[0].pat, rules[0].rep, rules[0].pat);
      RulesKeepAbsent(t, rules[1..], rules[0].pat);
    } else {
      RulesRemove(t, rules[1..], k - 1);
    }
  }

  lemma {:induction false} RulesFixed(s: string, rules: seq<Rule>)
    requires forall i :: 0 <= i < |rules| ==> rules[i].pat != "" && !Contains(s, rules[i].pat)
    ensures ApplyRules(s, rules) == s
    decreases |rules|
  {
    if rules != [] {
      ReplaceFixed(s, rules[0].pat, rules[0].rep);
      RulesFixed(s, rules[1..]);
    }
  }

  /** Sanitized text holds no wrapper delimiter and no context marker. */
  lemma SanitizeClears(text: string, k: nat)
    requires k < |RULES|
    ensures !Contains(Sanitize(text), RULES[k].pat)
  {
    RulesSettled();
    var s := ApplyRules(text, RULES);
    RulesRemove(text, RULES, k);
    StripEnds(s);
    if Contains(Strip(s), RULES[k].pat) {
      ContainsTransitive(s, Strip(s), RULES[k].pat);
    }
  }

  /** Sanitizing twice is sanitizing once. */
  lemma SanitizeIdempotent(text: string)
    ensures Sanitize(Sanitize(text)) == Sanitize(text)
  {
    RulesSettled();
    var r := Sanitize(text);
    forall k: nat | k < |RULES| ensures !Contains(r, RULES[k].pat) { SanitizeClears(text, k); }
    RulesFixed(r, RULES);
    StripEnds(ApplyRules(text, RULES));
    StripFixed(r);
  }

  /** Text without any delimiter is only stripped. */
  lemma CleanTextKept(text: string)
    requires forall k :: 0 <= k < |RULES| ==> !Contains(text, RULES[k].pat)
    ensures Sanitize(text) == Strip(text)
  {
    RulesSettled();
    RulesFixed(text, RULES);
  }

  lemma RulesCons(s: string, rules: seq<Rule>)
    requires rules != [] && forall i :: 0 <= i < |rules| ==> rules[i].pat != ""
    ensures ApplyRules(s, rules) == ApplyRules(Replace(s, rules[0].pat, rules[0].rep), rules[1..])
  {
  }

  /** The delimiters, and what each is replaced by. */
  lemma RulesAre()
    ensures |RULES| == 4
    ensures RULES[0].pat == "<knowledge-context" && RULES[0].rep == "&lt;knowledge-context"
    ensures RULES[1].pat == "</knowledge-context>" && RULES[1].rep == "&lt;/knowledge-context>"
    ensures RULES[2].pat == "|BEGIN CONTEXT|" && RULES[2].rep == "[BEGIN DATA]"
    ensures RULES[3].pat == "|END CONTEXT|" && RULES[3].rep == "[END DATA]"
  {
  }

  // ---------------------------------------------------------------------------
  // Printing and parsing
  // ---------------------------------------------------------------------------

  /** One ranked entry; the score is the text it is formatted to. */
  datatype Entry = Entry(
    sourceId: string, entryId: string, kind: string, score: string,
    scope: string, uri: string, digest: string, text: string)

  /** The attributes of the opening tag; an empty source id or scope is replaced by its default. */
  function Attributes(e: Entry): string { AttributesToUri(e) + e.uri + AttributesFromUri(e) }

  function AttributesToUri(e: Entry): string {
    " source=\"" + PrintedSource(e) + "\" kind=\"" + e.kind + "\" score=\"" + e.score +
    "\" scope=\"" + PrintedScope(e) + "\" uri=\""
  }

  function AttributesFromUri(e: Entry): string { "\" digest=\"" + e.digest + "\"" }

  /** Under which names the fields of an entry are printed, one after the other. */
  lemma AttributesAre(e: Entry)
    ensures Attributes(e) ==
      " source=\"" + (if e.sourceId != "" then e.sourceId else e.entryId) + "\"" +
      (" kind=\"" + e.kind + "\"") + (" score=\"" + e.score + "\"") +
      (" scope=\"" + (if e.scope != "" then e.scope else "approved") + "\"") +
      (" uri=\"" + e.uri + "\"") + (" digest=\"" + e.digest + "\"")
  {
    var source, scope := PrintedSource(e), PrintedScope(e);
    Regrouped(" source=\"", source, "\"", " kind=\"", e.kind, " score=\"", e.score, " scope=\"", scope, " uri=\"",
      e.uri, " digest=\"", e.digest);
    assert "\"" + " kind=\"" == "\" kind=\"" && "\"" + " score=\"" == "\" score=\"";
    assert "\"" + " scope=\"" == "\" scope=\"" && "\"" + " uri=\"" == "\" uri=\"";
    assert "\"" + " digest=\"" == "\" digest=\"";
  }

  lemma Regrouped(a: string, s: string, q: string, b: string, k: string, c: string, r: string, d: string, p: string,
      u: string, i: string, g: string, x: string)
    ensures (a + s + (q + b) + k + (q + c) + r + (q + d) + p + (q + u)) + i + ((q + g) + x + q) ==
      a + s + q + (b + k + q) + (c + r + q) + (d + p + q) + (u + i + q) + (g + x + q)
  {
  }

  function PrintedSource(e: Entry): string { if e.sourceId != "" then e.sourceId else e.entryId }

  function PrintedScope(e: Entry): string { if e.scope != "" then e.scope else "approved" }

  /** No printed attribute value of the entry holds a `>`. */
  predicate WellTagged(e: Entry) {
    && '>' !in PrintedSource(e) && '>' !in e.kind && '>' !in e.score && '>' !in PrintedScope(e)
    && '>' !in e.uri && '>' !in e.digest
  }

  lemma WellTaggedIff(e: Entry)
    ensures WellTagged(e) <==> '>' !in Attributes(e)
  {
    var tail := "\" score=\"" + e.score + "\" scope=\"" + PrintedScope(e) + "\" uri=\"";
    InParts('>', " source=\"" + PrintedSource(e) + "\" kind=\"" + e.kind, tail);
    InParts('>', " source=\"" + PrintedSource(e), "\" kind=\"" + e.kind);
    InParts('>', "\" score=\"" + e.score, "\" scope=\"" + PrintedScope(e) + "\" uri=\"");
    assert AttributesToUri(e) == " source=\"" + PrintedSource(e) + "\" kind=\"" + e.kind + tail;
  }

  lemma InParts(c: char, a: string, b: string)
    ensures c in a + b <==> c in a || c in b
  {
  }

  function Body(e: Entry): string { "\n" + Sanitize(e.text) + "\n" }

  function Block(w: Wrapper, attributes: string, body: string): string {
    w.open + attributes + w.angle + body + w.close
  }

  function Bodies(entries: seq<Entry>): (r: seq<string>)
    ensures |r| == |entries| && forall i :: 0 <= i < |entries| ==> r[i] == Body(entries[i])
  {
    seq(|entries|, i requires 0 <= i < |entries| => Body(entries[i]))
  }

  function Tags(entries: seq<Entry>): (r: seq<string>)
    ensures |r| == |entries| && forall i :: 0 <= i < |entries| ==> r[i] == Attributes(entries[i])
  {
    seq(|entries|, i requires 0 <= i < |entries| => Attributes(entries[i]))
  }

  /** The blocks, each after the two newlines that join it to what comes before. */
  function Joined(w: Wrapper, attributes: seq<string>, bodies: seq<string>): string
    requires |attributes| == |bodies|
  {
    if bodies == [] then ""
    else "\n\n" + (Block(w, attributes[0], bodies[0]) + Joined(w, attributes[1..], bodies[1..]))
  }

  function BuildContext(preamble: string, entries: seq<Entry>): Option<string> {
    if entries == [] then None else Some(preamble + Joined(WRAPPER, Tags(entries), Bodies(entries)))
  }

  /** There is a context exactly if there are entries. */
  lemma ContextGivenIff(preamble: string, entries: seq<Entry>)
    ensures BuildContext(preamble, entries).Some? <==> entries != []
    ensures BuildContext(preamble, entries).Some? ==> preamble <= BuildContext(preamble, entries).value
  {
  }

  /**
   One match of the regular expression made of the opening tag, any characters but `>`, a `>`, the
   text that is captured, and the closing tag: it starts at `p`, the `>` is at `q` and the closing
   tag at `r`.
   */
  ghost predicate IsMatch(w: Wrapper, s: string, p: int, q: int, r: int) {
    && OccursAt(s, w.open, p)
    && p + |w.open| <= q && OccursAt(s, w.angle, q)
    && (forall i :: p + |w.open| <= i < q ==> !OccursAt(s, w.angle, i))
    && q < r && OccursAt(s, w.close, r)
  }

  /** The leftmost match, with the shortest text. */
  ghost predicate IsFirstMatch(w: Wrapper, s: string, p: int, q: int, r: int) {
    && IsMatch(w, s, p, q, r)
    && forall p', q', r' :: IsMatch(w, s, p', q', r') ==> p < p' || (p == p' && q == q' && r <= r')
  }

  /** What `findall` returns: the text of the first match, then those of the rest of the string. */
  ghost function FindAll(w: Wrapper, s: string): seq<string>
    requires w.close != ""
    decreases |s|
  {
    if exists p, q, r :: IsFirstMatch(w, s, p, q, r) then
      var p, q, r :| IsFirstMatch(w, s, p, q, r);
      [s[q + 1..r]] + FindAll(w, s[r + |w.close|..])
    else []
  }

  ghost function ParseContext(supplied: Option<string>): seq<string> {
    match supplied
    case None => []
    case Some(s) => FindAll(WRAPPER, s)
  }

  /** Where there is a match there is a first one, so `FindAll` stops only when there is none. */
  lemma FirstMatchExists(w: Wrapper, s: string, p: int, q: int, r: int)
    requires w.close != "" && IsMatch(w, s, p, q, r)
    ensures FindAll(w, s) != []
  {
    var p' := FirstOccurrence(s, w.open, 0, p);
    var q' := FirstOccurrence(s, w.angle, p' + |w.open|, q);
    var r' := FirstOccurrence(s, w.close, q' + 1, r);
    assert IsFirstMatch(w, s, p', q', r');
  }

  /** `part` stands at position `n` of `s`. */
  ghost predicate At(s: string, n: nat, part: string) {
    n + |part| <= |s| && forall k :: 0 <= k < |part| ==> s[n + k] == part[k]
  }

  lemma AtSlice(s: string, n: nat, part: string)
    requires At(s, n, part)
    ensures s[n..n + |part|] == part && OccursAt(s, part, n)
  {
  }

  lemma AtChar(s: string, n: nat, part: string, i: int)
    requires At(s, n, part)
    ensures n <= i < n + |part| ==> s[i] == part[i - n] && s[i] in part
  {
    if n <= i < n + |part| {
      assert s[n + (i - n)] == part[i - n];
    }
  }

  /** No closing tag begins inside clean text that a closing tag follows. */
  lemma CloseBehind(w: Wrapper, s: string, from: nat, body: string, i: int)
    requires w.Proper() && !Contains(body, w.close)
    requires At(s, from, body) && At(s, from + |body|, w.close) && from <= i && OccursAt(s, w.close, i)
    ensures i >= from + |body|
  {
    var at := from + |body|;
    AtSlice(s, from, body);
    AtSlice(s, at, w.close);
    OccursChar(s, w.close, at, 0);
    OccursChar(s, w.close, i, at - i);
    OccursInPart(s, from, body, w.close, i);
  }

  lemma OpenBehind(w: Wrapper, s: string, lead: string, i: int)
    requires w.Proper() && At(s, 0, lead) && '<' !in lead && OccursAt(s, w.open, i)
    ensures i >= |lead|
  {
    OccursChar(s, w.open, i, 0);
    AtChar(s, 0, lead, i);
  }

  lemma AngleBehind(w: Wrapper, s: string, from: nat, attributes: string, i: int)
    requires w.Proper() && At(s, from, attributes) && '>' !in attributes && from <= i && OccursAt(s, w.angle, i)
    ensures i >= from + |attributes|
  {
    OccursChar(s, w.angle, i, 0);
    AtChar(s, from, attributes, i);
  }

  lemma AtBehind(lead: string, n: nat, s: string, part: string)
    requires At(s, n, part)
    ensures At(lead + s, |lead| + n, part)
  {
  }

  lemma BlockLayout(w: Wrapper, attributes: string, body: string, rest: string)
    requires w.Proper()
    ensures var s := Block(w, attributes, body) + rest; var q := |w.open| + |attributes|; var r := q + 1 + |body|;
      && At(s, 0, w.open) && At(s, |w.open|, attributes) && At(s, q, w.angle)
      && At(s, q + 1, body) && At(s, r, w.close) && |s| == r + |w.close| + |rest| && s[r + |w.close|..] == rest
  {
  }

  /** Where the parts of a block behind `lead` stand. */
  ghost predicate Laid(w: Wrapper, s: string, lead: string, attributes: string, body: string) {
    var n := |lead| + |w.open|;
    var q := n + |attributes|;
    && At(s, 0, lead) && At(s, |lead|, w.open) && At(s, n, attributes) && At(s, q, w.angle)
    && At(s, q + 1, body) && At(s, q + 1 + |body|, w.close)
  }

  lemma BlockIsMatch(w: Wrapper, s: string, lead: string, attributes: string, body: string)
    requires w.Proper() && '>' !in attributes && Laid(w, s, lead, attributes, body)
    ensures var q := |lead| + |w.open| + |attributes|; IsMatch(w, s, |lead|, q, q + 1 + |body|)
  {
    var n, q := |lead|, |lead| + |w.open| + |attributes|;
    AtSlice(s, n, w.open);
    AtSlice(s, q, w.angle);
    AtSlice(s, q + 1 + |body|, w.close);
    forall i | n + |w.open| <= i < q ensures !OccursAt(s, w.angle, i) {
      if OccursAt(s, w.angle, i) { AngleBehind(w, s, n + |w.open|, attributes, i); }
    }
  }

  lemma BlockIsLeftmost(w: Wrapper, s: string, lead: string, attributes: string, body: string, p: int, q: int, r: int)
    requires w.Proper() && '<' !in lead && '>' !in attributes && !Contains(body, w.close)
    requires Laid(w, s, lead, attributes, body) && IsMatch(w, s, p, q, r)
    ensures var q' := |lead| + |w.open| + |attributes|;
      |lead| < p || (|lead| == p && q' == q && q' + 1 + |body| <= r)
  {
    OpenBehind(w, s, lead, p);
    if p == |lead| {
      var q' := |lead| + |w.open| + |attributes|;
      AngleBehind(w, s, |lead| + |w.open|, attributes, q);
      AtSlice(s, q', w.angle);
      CloseBehind(w, s, q' + 1, body, r);
    }
  }

  /** A well-formed block behind text without `<` is the first match. */
  lemma BlockMatched(w: Wrapper, s: string, lead: string, attributes: string, body: string)
    requires w.Proper() && '<' !in lead && '>' !in attributes && !Contains(body, w.close)
    requires Laid(w, s, lead, attributes, body)
    ensures var q := |lead| + |w.open| + |attributes|; IsFirstMatch(w, s, |lead|, q, q + 1 + |body|)
  {
    BlockIsMatch(w, s, lead, attributes, body);
    var q := |lead| + |w.open| + |attributes|;
    forall p', q', r' | IsMatch(w, s, p', q', r')
      ensures |lead| < p' || (|lead| == p' && q == q' && q + 1 + |body| <= r')
    {
      BlockIsLeftmost(w, s, lead, attributes, body, p', q', r');
    }
  }

  lemma SameFirst(w: Wrapper, s: string, p: int, q: int, r: int, p': int, q': int, r': int)
    requires IsFirstMatch(w, s, p, q, r) && IsFirstMatch(w, s, p', q', r')
    ensures p' == p && q' == q && r' == r
  {
    assert IsMatch(w, s, p, q, r) && IsMatch(w, s, p', q', r');
  }

  lemma FindAllFirst(w: Wrapper, s: string, p: int, q: int, r: int, text: string, rest: string)
    requires w.close != "" && IsFirstMatch(w, s, p, q, r)
    requires s[q + 1..r] == text && s[r + |w.close|..] == rest
    ensures FindAll(w, s) == [text] + FindAll(w, rest)
  {
    forall p', q', r' | IsFirstMatch(w, s, p', q', r') ensures p' == p && q' == q && r' == r {
      SameFirst(w, s, p, q, r, p', q', r');
    }
  }

  lemma LaidBehind(w: Wrapper, lead: string, b: string, attributes: string, body: string)
    requires Laid(w, b, "", attributes, body)
    ensures Laid(w, lead + b, lead, attributes, body)
  {
    var q := |w.open| + |attributes|;
    AtBehind(lead, 0, b, w.open);
    AtBehind(lead, |w.open|, b, attributes);
    AtBehind(lead, q, b, w.angle);
    AtBehind(lead, q + 1, b, body);
    AtBehind(lead, q + 1 + |body|, b, w.close);
  }

  lemma BlockLaid(w: Wrapper, lead: string, attributes: string, body: string, rest: string)
    requires w.Proper()
    ensures var s := lead + (Block(w, attributes, body) + rest); Laid(w, s, lead, attributes, body)
  {
    BlockLayout(w, attributes, body, rest);
    LaidBehind(w, lead, Block(w, attributes, body) + rest, attributes, body);
  }

  lemma BlockEnds(w: Wrapper, lead: string, attributes: string, body: string, rest: string)
    requires w.Proper()
    ensures var s := lead + (Block(w, attributes, body) + rest); var q := |lead| + |w.open| + |attributes|;
      && Laid(w, s, lead, attributes, body)
      && s[q + 1..q + 1 + |body|] == body && s[q + 1 + |body| + |w.close|..] == rest
  {
    var b := Block(w, attributes, body) + rest;
    var q := |lead| + |w.open| + |attributes|;
    BlockLaid(w, lead, attributes, body, rest);
    AtSlice(lead + b, q + 1, body);
    BlockLayout(w, attributes, body, rest);
    DropBehind(lead, b, q + 1 + |body| + |w.close|);
  }

  lemma BlockParsed(w: Wrapper, s: string, lead: string, attributes: string, body: string, rest: string)
    requires w.Proper() && '<' !in lead && '>' !in attributes && !Contains(body, w.close)
    requires s == lead + (Block(w, attributes, body) + rest)
    ensures FindAll(w, s) == [body] + FindAll(w, rest)
  {
    BlockEnds(w, lead, attributes, body, rest);
    BlockMatched(w, s, lead, attributes, body);
    var q := |lead| + |w.open| + |attributes|;
    FindAllFirst(w, s, |lead|, q, q + 1 + |body|, body, rest);
  }

  lemma DropBehind(lead: string, b: string, n: nat)
    requires |lead| <= n <= |lead| + |b|
    ensures (lead + b)[n..] == b[n - |lead|..]
  {
  }

  /** Clean text between newlines is still clean: the closing tag holds no newline. */
  lemma BodyAvoids(close: string, text: string)
    requires close != "" && '\n' !in close && !Contains(text, close)
    ensures !Contains("\n" + text + "\n", close)
  {
    var b := "\n" + text + "\n";
    assert b[1..1 + |text|] == text && close[0] in close && close[|close| - 1] in close;
    forall i ensures !OccursAt(b, close, i) {
      OccursChar(b, close, i, 0);
      OccursChar(b, close, i, |close| - 1);
      OccursInPart(b, 1, text, close, i);
    }
  }

  lemma NoMatchWithoutAngle(w: Wrapper, s: string)
    requires w.Proper() && '<' !in s
    ensures FindAll(w, s) == []
  {
    forall i ensures !OccursAt(s, w.open, i) {
      OccursChar(s, w.open, i, 0);
      assert 0 <= i < |s| ==> s[i] in s;
    }
  }

  lemma {:induction false} JoinedParsed(w: Wrapper, lead: string, attributes: seq<string>, bodies: seq<string>)
    requires w.Proper() && '<' !in lead && |attributes| == |bodies|
    requires forall i :: 0 <= i < |bodies| ==> '>' !in attributes[i] && !Contains(bodies[i], w.close)
    ensures FindAll(w, lead + Joined(w, attributes, bodies)) == bodies
    decreases |bodies|
  {
    if bodies == [] {
      NoMatchWithoutAngle(w, lead + "");
    } else {
      var rest := Joined(w, attributes[1..], bodies[1..]);
      var block := Block(w, attributes[0], bodies[0]) + rest;
      var s := lead + Joined(w, attributes, bodies);
      assert s == (lead + "\n\n") + block;
      BlockParsed(w, s, lead + "\n\n", attributes[0], bodies[0], rest);
      JoinedParsed(w, "", attributes[1..], bodies[1..]);
      assert "" + rest == rest;
      assert bodies == [bodies[0]] + bodies[1..];
    }
  }

  /** What follows the first `>` of an attribute list, up to the closing tag, if that does not come sooner. */
  lemma LongerAvoids(close: string, tail: string, body: string)
    requires close != "" && close[0] == '<' && '"' !in close
    requires tail == "" || tail[|tail| - 1] == '"'
    requires !Contains(tail, close) && !Contains(body, close)
    ensures !Contains(tail + ">" + body, close)
  {
    var b, n := tail + ">" + body, |tail|;
    assert b[0..n] == tail && b[n + 1..n + 1 + |body|] == body && b[n] == '>';
    forall i ensures !OccursAt(b, close, i) {
      OccursInPart(b, 0, tail, close, i);
      OccursInPart(b, n + 1, body, close, i);
      OccursChar(b, close, i, n - i);
      OccursChar(b, close, i, n - 1 - i);
      OccursChar(b, close, i, 0);
    }
  }

  lemma {:induction false} FirstAngle(attributes: string) returns (n: nat)
    requires '>' in attributes
    ensures n < |attributes| && attributes[n] == '>' && '>' !in attributes[..n]
  {
    if attributes[0] == '>' {
      n := 0;
    } else {
      var k := FirstAngle(attributes[1..]);
      n := k + 1;
      assert attributes[..n] == [attributes[0]] + attributes[1..][..k];
    }
  }

  /** A `>` in the attributes makes the text of the block begin early. */
  lemma AngleLengthens(w: Wrapper, lead: string, attributes: string, body: string, rest: string)
    requires w.Proper() && '"' !in w.close && '<' !in lead
    requires '>' in attributes && attributes[|attributes| - 1] == '"' && !Contains(attributes, w.close)
    requires !Contains(body, w.close)
    ensures var found := FindAll(w, lead + (Block(w, attributes, body) + rest)); found != [] && |found[0]| > |body|
  {
    var n := FirstAngle(attributes);
    var before, tail := attributes[..n], attributes[n + 1..];
    assert attributes == attributes[..n + 1] + tail + "";
    if Contains(tail, w.close) {
      ContainsPart(attributes[..n + 1], tail, "");
      ContainsTransitive(attributes, tail, w.close);
    }
    LongerAvoids(w.close, tail, body);
    var longer := tail + ">" + body;
    assert w.angle == ">" && attributes == before + w.angle + tail;
    assert Block(w, attributes, body) == Block(w, before, longer);
    BlockParsed(w, lead + (Block(w, before, longer) + rest), lead, before, longer, rest);
  }

  lemma {:induction false} JoinedMisread(w: Wrapper, lead: string, attributes: seq<string>, bodies: seq<string>, k: nat)
    requires w.Proper() && '"' !in w.close && '<' !in lead && |attributes| == |bodies| && k < |bodies|
    requires forall i :: 0 <= i < |bodies| ==>
      && attributes[i] != "" && attributes[i][|attributes[i]| - 1] == '"'
      && !Contains(attributes[i], w.close) && !Contains(bodies[i], w.close)
    requires '>' in attributes[k]
    ensures FindAll(w, lead + Joined(w, attributes, bodies)) != bodies
    decreases |bodies|
  {
    var rest := Joined(w, attributes[1..], bodies[1..]);
    var s := lead + Joined(w, attributes, bodies);
    assert s == (lead + "\n\n") + (Block(w, attributes[0], bodies[0]) + rest);
    if '>' in attributes[0] {
      AngleLengthens(w, lead + "\n\n", attributes[0], bodies[0], rest);
    } else {
      JoinedMisread(w, "", attributes[1..], bodies[1..], k - 1);
      FirstThenMisread(w, s, lead + "\n\n", attributes[0], bodies, rest);
    }
  }

  lemma FirstThenMisread(w: Wrapper, s: string, lead: string, attributes: string, bodies: seq<string>, rest: string)
    requires w.Proper() && '<' !in lead && '>' !in attributes && bodies != [] && !Contains(bodies[0], w.close)
    requires s == lead + (Block(w, attributes, bodies[0]) + rest) && FindAll(w, "" + rest) != bodies[1..]
    ensures FindAll(w, s) != bodies
  {
    BlockParsed(w, s, lead, attributes, bodies[0], rest);
    assert "" + rest == rest;
    assert ([bodies[0]] + FindAll(w, rest))[1..] == FindAll(w, rest);
  }

  lemma NoQuoteInClose()
    ensures '"' !in WRAPPER.close
  {
  }

  lemma AttributesEnd(e: Entry)
    ensures Attributes(e) != "" && Attributes(e)[|Attributes(e)| - 1] == '"'
  {
  }

  lemma BodyClean(e: Entry)
    ensures !Contains(Body(e), WRAPPER.close)
  {
    WrapperProper();
    RulesSettled();
    SanitizeClears(e.text, 1);
    BodyAvoids(WRAPPER.close, Sanitize(e.text));
  }

  /** One block per entry, in order, each the sanitized text between two newlines. */
  lemma ContextRoundTrip(preamble: string, entries: seq<Entry>)
    requires '<' !in preamble
    requires forall i :: 0 <= i < |entries| ==> WellTagged(entries[i])
    ensures ParseContext(BuildContext(preamble, entries)) == Bodies(entries)
  {
    WrapperProper();
    var attributes, bodies := Tags(entries), Bodies(entries);
    forall i | 0 <= i < |entries| ensures '>' !in attributes[i] && !Contains(bodies[i], WRAPPER.close) {
      WellTaggedIff(entries[i]);
      BodyClean(entries[i]);
    }
    if entries != [] {
      JoinedParsed(WRAPPER, preamble, attributes, bodies);
    }
  }

  /**
   Where no printed attribute holds a whole closing tag, the round trip succeeds if and only if none
   holds a `>` at all.
   */
  lemma ContextRoundTripIff(preamble: string, entries: seq<Entry>)
    requires '<' !in preamble
    requires forall i :: 0 <= i < |entries| ==> !Contains(Attributes(entries[i]), WRAPPER.close)
    ensures ParseContext(BuildContext(preamble, entries)) == Bodies(entries) <==>
      forall i :: 0 <= i < |entries| ==> WellTagged(entries[i])
  {
    if forall i :: 0 <= i < |entries| ==> WellTagged(entries[i]) {
      ContextRoundTrip(preamble, entries);
    } else {
      var k :| 0 <= k < |entries| && !WellTagged(entries[k]);
      WellTaggedIff(entries[k]);
      WrapperProper();
      NoQuoteInClose();
      var attributes, bodies := Tags(entries), Bodies(entries);
      forall i | 0 <= i < |entries|
        ensures attributes[i] != "" && attributes[i][|attributes[i]| - 1] == '"' && !Contains(bodies[i], WRAPPER.close)
      {
        AttributesEnd(entries[i]);
        BodyClean(entries[i]);
      }
      JoinedMisread(WRAPPER, preamble, attributes, bodies, k);
    }
  }

  /** No opening tag begins where `<` is only that of a closing tag. */
  lemma NoOpening(w: Wrapper, before: string, after: string)
    requires w.Proper() && |w.open| > 1 && |w.close| > 1 && w.open[1] != w.close[1]
    requires '<' !in before && '<' !in after
    ensures !Contains(before + w.close + after, w.open)
  {
    var s := before + w.close + after;
    forall i ensures !OccursAt(s, w.open, i) {
      OccursChar(s, w.open, i, 0);
      OccursChar(s, w.open, i, 1);
      SoleAngle(w, before, after, i);
    }
  }

  lemma SoleAngle(w: Wrapper, before: string, after: string, i: int)
    requires w.Proper() && |w.close| > 1 && '<' !in before && '<' !in after
    ensures var s := before + w.close + after;
      0 <= i < |s| && s[i] == '<' ==> i == |before| && i + 1 < |s| && s[i + 1] == w.close[1]
  {
  }

  lemma NoMatchWithoutOpening(w: Wrapper, s: string)
    requires w.close != "" && !Contains(s, w.open)
    ensures FindAll(w, s) == []
  {
  }

  lemma CopySplits(open: string, before: string, angle: string, body: string, close: string, after: string)
    ensures open + (before + (angle + body + close) + after) + angle + body + close + "" ==
      (open + before + angle + body + close) + (after + angle + body + close + "")
  {
    var s := angle + body + close;
    assert open + (before + s + after) == open + before + s + after;
    assert open + before + angle + body + close == open + before + s;
    assert (open + before + s + after) + angle + body + close == (open + before + s) + (after + angle + body + close);
  }

  lemma OneJoined(w: Wrapper, lead: string, attributes: string, body: string)
    ensures lead + Joined(w, [attributes], [body]) == lead + "\n\n" + (Block(w, attributes, body) + "")
  {
    assert [attributes][1..] == [] && [body][1..] == [];
  }

  /** A block whose attributes end in a copy of its own text and a closing tag is read like the block itself. */
  lemma CopyReadAlike(w: Wrapper, lead: string, before: string, after: string, body: string)
    requires w.Proper() && |w.open| > 1 && |w.close| > 1 && w.open[1] != w.close[1]
    requires '<' !in lead && '>' !in before && '<' !in body && '<' !in after && !Contains(body, w.close)
    ensures FindAll(w, lead + (Block(w, before + (w.angle + body + w.close) + after, body) + "")) == [body]
  {
    var attributes, rest := before + (w.angle + body + w.close) + after, after + w.angle + body;
    CopySplits(w.open, before, w.angle, body, w.close, after);
    BlockParsed(w, lead + (Block(w, attributes, body) + ""), lead, before, body, rest + w.close + "");
    NoOpening(w, rest, "");
    NoMatchWithoutOpening(w, rest + w.close + "");
  }

  /** So a `>` in an attribute that holds a whole closing tag may also go unnoticed. */
  lemma AngleUnnoticed(preamble: string, e: Entry)
    requires '<' !in preamble && '>' !in AttributesToUri(e) && '<' !in AttributesFromUri(e) && '<' !in Body(e)
    requires e.uri == WRAPPER.angle + Body(e) + WRAPPER.close
    ensures !WellTagged(e)
    ensures ParseContext(BuildContext(preamble, [e])) == Bodies([e])
  {
    WrapperProper();
    BodyClean(e);
    TagsDiffer();
    CopyReadAlike(WRAPPER, preamble + "\n\n", AttributesToUri(e), AttributesFromUri(e), Body(e));
    assert e.uri[0] == WRAPPER.angle[0];
    OneJoined(WRAPPER, preamble, Attributes(e), Body(e));
    OneOfEach(e);
  }

  lemma OneOfEach(e: Entry)
    ensures Bodies([e]) == [Body(e)] && Tags([e]) == [Attributes(e)]
  {
  }

  lemma TagsDiffer()
    ensures |WRAPPER.open| > 1 && |WRAPPER.close| > 1 && WRAPPER.open[1] != WRAPPER.close[1]
  {
  }
}
