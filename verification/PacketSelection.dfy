/**
 Which ranked entries a context packet keeps (knowledge_manager.py, _diversify and
 _enforce_token_budget): a cap for each source, a cap for the packet, and a token budget under which
 an entry is admitted whole or not at all.
 */
module PacketSelection {
  import opened Wrappers

  /** Only the fields the selection reads. */
  datatype Entry = Entry(sourceId: Option<string>, uri: string, tokens: nat)

  /** `entry.get('source_id') or entry['uri']`: an empty identifier counts as none. */
  function SourceOf(e: Entry): string {
    match e.sourceId
    case Some(id) => if id == "" then e.uri else id
    case None => e.uri
  }

  function Count(entries: seq<Entry>, source: string): nat {
    if entries == [] then 0
    else Count(entries[..|entries| - 1], source) + if SourceOf(entries[|entries| - 1]) == source then 1 else 0
  }

  lemma CountSnoc(entries: seq<Entry>, e: Entry, source: string)
    ensures Count(entries + [e], source) == Count(entries, source) + if SourceOf(e) == source then 1 else 0
  {
    assert (entries + [e])[..|entries|] == entries;
  }

  // ---------------------------------------------------------------------------
  // Diversification
  // ---------------------------------------------------------------------------

  /** The entries with fewer than `cap` better ones of their source. */
  function BestOfEach(ranked: seq<Entry>, cap: int): (r: seq<Entry>)
    ensures |r| <= |ranked|
  {
    if ranked == [] then []
    else
      var before, last := ranked[..|ranked| - 1], ranked[|ranked| - 1];
      if Count(before, SourceOf(last)) < cap then BestOfEach(before, cap) + [last] else BestOfEach(before, cap)
  }

  function Max0(n: int): nat { if n < 0 then 0 else n }

  function AtMost(n: int, m: int): int { if n <= m then n else m }

  /** No more than `limit` of them. */
  function Front(entries: seq<Entry>, limit: int): seq<Entry> { entries[..AtMost(Max0(limit), |entries|)] }

  /** What _diversify selects. */
  function Diversified(ranked: seq<Entry>, cap: int, limit: int): seq<Entry> { Front(BestOfEach(ranked, cap), limit) }

  lemma BestNext(before: seq<Entry>, last: Entry, cap: int)
    ensures BestOfEach(before + [last], cap) ==
      if Count(before, SourceOf(last)) < cap then BestOfEach(before, cap) + [last] else BestOfEach(before, cap)
  {
    assert (before + [last])[..|before|] == before;
  }

  /** Of every source as many as there are, up to the cap. */
  lemma {:induction false} BestCounted(ranked: seq<Entry>, cap: int, source: string)
    ensures Count(BestOfEach(ranked, cap), source) == AtMost(Count(ranked, source), Max0(cap))
  {
    if ranked != [] {
      var before, last := ranked[..|ranked| - 1], ranked[|ranked| - 1];
      assert ranked == before + [last];
      BestCounted(before, cap, source);
      BestCountedNext(before, last, cap, source);
    }
  }

  lemma BestCountedNext(before: seq<Entry>, last: Entry, cap: int, source: string)
    requires Count(BestOfEach(before, cap), source) == AtMost(Count(before, source), Max0(cap))
    ensures Count(BestOfEach(before + [last], cap), source) == AtMost(Count(before + [last], source), Max0(cap))
  {
    BestNext(before, last, cap);
    CountSnoc(before, last, source);
    CountSnoc(BestOfEach(before, cap), last, source);
  }

  /** The cap can be checked against what was selected instead of what was seen. */
  lemma SelectedNext(ranked: seq<Entry>, i: nat, cap: int)
    requires i < |ranked|
    ensures var selected := BestOfEach(ranked[..i], cap);
      BestOfEach(ranked[..i + 1], cap) ==
      if Count(selected, SourceOf(ranked[i])) < cap then selected + [ranked[i]] else selected
  {
    assert ranked[..i + 1] == ranked[..i] + [ranked[i]];
    BestNext(ranked[..i], ranked[i], cap);
    BestCounted(ranked[..i], cap, SourceOf(ranked[i]));
  }

  lemma {:induction false} FrontCounted(entries: seq<Entry>, n: nat, source: string)
    requires n <= |entries|
    ensures Count(entries[..n], source) <= Count(entries, source)
  {
    if n < |entries| {
      assert entries[..|entries| - 1][..n] == entries[..n];
      FrontCounted(entries[..|entries| - 1], n, source);
    } else {
      assert entries[..n] == entries;
    }
  }

  /** The packet respects both caps, and a packet that is not full has all that the source cap allows. */
  lemma DiversifiedCaps(ranked: seq<Entry>, cap: int, limit: int, source: string)
    ensures var r := Diversified(ranked, cap, limit);
      && |r| <= Max0(limit)
      && Count(r, source) <= Max0(cap)
      && (|r| < limit ==> Count(r, source) == AtMost(Count(ranked, source), Max0(cap)))
  {
    BestCounted(ranked, cap, source);
    var best := BestOfEach(ranked, cap);
    FrontCounted(best, AtMost(Max0(limit), |best|), source);
    if |Diversified(ranked, cap, limit)| < limit { assert best[..|best|] == best; }
  }

  lemma {:induction false} BestOfCapped(ranked: seq<Entry>, cap: int)
    requires forall source :: Count(ranked, source) <= Max0(cap)
    ensures BestOfEach(ranked, cap) == ranked
  {
    if ranked != [] {
      var before, last := ranked[..|ranked| - 1], ranked[|ranked| - 1];
      assert ranked == before + [last];
      forall source ensures Count(before, source) <= Max0(cap) { CountSnoc(before, last, source); }
      BestOfCapped(before, cap);
      CountSnoc(before, last, SourceOf(last));
    }
  }

  /** The entry is of this source: by its identifier, or by its uri if it has none. */
  predicate FromSource(e: Entry, source: string) {
    || (source != "" && e.sourceId == Some(source))
    || ((e.sourceId == None || e.sourceId == Some("")) && e.uri == source)
  }

  lemma {:induction false} CountIs(entries: seq<Entry>, source: string)
    ensures Count(entries, source) == |set i | 0 <= i < |entries| && FromSource(entries[i], source)|
  {
    var found := set i | 0 <= i < |entries| && FromSource(entries[i], source);
    if entries == [] {
      assert found == {};
    } else {
      var n := |entries| - 1;
      CountIs(entries[..n], source);
      var before := set i | 0 <= i < n && FromSource(entries[..n][i], source);
      assert found == if FromSource(entries[n], source) then before + {n} else before;
    }
  }

  /** An entry is taken if and only if fewer than `cap` better ones are of its source, in the order of the ranking. */
  lemma TakenIff(ranked: seq<Entry>, cap: int, i: nat, source: string)
    requires i < |ranked| && FromSource(ranked[i], source)
    ensures BestOfEach(ranked[..i + 1], cap) ==
      BestOfEach(ranked[..i], cap) +
      if |set j | 0 <= j < i && FromSource(ranked[j], source)| < cap then [ranked[i]] else []
  {
    assert ranked[..i + 1] == ranked[..i] + [ranked[i]];
    BestNext(ranked[..i], ranked[i], cap);
    CountIs(ranked[..i], source);
    assert (set j | 0 <= j < i && FromSource(ranked[..i][j], source)) ==
      set j | 0 <= j < i && FromSource(ranked[j], source);
  }

  /** The packet is as much of the front of these as the limit allows. */
  lemma PacketIsFront(ranked: seq<Entry>, cap: int, limit: int)
    ensures var r := Diversified(ranked, cap, limit);
      && r <= BestOfEach(ranked, cap)
      && |r| == if limit <= 0 then 0
                else if limit <= |BestOfEach(ranked, cap)| then limit
                else |BestOfEach(ranked, cap)|
  {
  }

  /** Selecting from a selection changes nothing. */
  lemma DiversifiedIdempotent(ranked: seq<Entry>, cap: int, limit: int)
    ensures var r := Diversified(ranked, cap, limit); Diversified(r, cap, limit) == r
  {
    var r := Diversified(ranked, cap, limit);
    forall source ensures Count(r, source) <= Max0(cap) { DiversifiedCaps(ranked, cap, limit, source); }
    BestOfCapped(r, cap);
  }

  lemma {:induction false} BestOfPrefix(ranked: seq<Entry>, n: nat, cap: int)
    requires n <= |ranked|
    ensures BestOfEach(ranked[..n], cap) <= BestOfEach(ranked, cap)
  {
    if n < |ranked| {
      assert ranked[..|ranked| - 1][..n] == ranked[..n];
      BestOfPrefix(ranked[..|ranked| - 1], n, cap);
    } else {
      assert ranked[..n] == ranked;
    }
  }

  /** `per_source.get(key, 0)`. */
  function Taken(perSource: map<string, int>, source: string): int {
    if source in perSource then perSource[source] else 0
  }

  /** `per_source`: how many of each source have been selected. */
  ghost predicate Tallied(perSource: map<string, int>, selected: seq<Entry>) {
    forall source :: Taken(perSource, source) == Count(selected, source)
  }

  lemma TallyNext(perSource: map<string, int>, selected: seq<Entry>, e: Entry)
    requires Tallied(perSource, selected)
    ensures Tallied(perSource[SourceOf(e) := Taken(perSource, SourceOf(e)) + 1], selected + [e])
  {
    var next := perSource[SourceOf(e) := Taken(perSource, SourceOf(e)) + 1];
    forall source ensures Taken(next, source) == Count(selected + [e], source) { CountSnoc(selected, e, source); }
  }

  /** What is selected so far is all, once the packet is full or the ranking has ended. */
  lemma SelectionEnds(ranked: seq<Entry>, n: nat, cap: int, limit: int)
    requires n <= |ranked|
    ensures var selected := BestOfEach(ranked[..n], cap);
      (|selected| <= limit || selected == []) && (limit <= |selected| || n == |ranked|) ==>
        selected == Diversified(ranked, cap, limit)
  {
    BestOfPrefix(ranked, n, cap);
    assert ranked[..|ranked|] == ranked;
  }

  /** _diversify, whose counts are of what it selected, not of what it has seen. */
  method Diversify(ranked: seq<Entry>, cap: int, limit: int) returns (selected: seq<Entry>)
    ensures selected == Diversified(ranked, cap, limit)
  {
    var perSource: map<string, int> := map[];
    selected := [];
    for i := 0 to |ranked|
      invariant selected == BestOfEach(ranked[..i], cap) && (|selected| <= limit || selected == [])
      invariant Tallied(perSource, selected)
    {
      var e := ranked[i];
      var key := SourceOf(e);
      SelectedNext(ranked, i, cap);
      if Taken(perSource, key) >= cap {
        continue;
      }
      SelectionEnds(ranked, i, cap, limit);
      if |selected| >= limit {
        return;
      }
      TallyNext(perSource, selected, e);
      selected := selected + [e];
      perSource := perSource[key := Taken(perSource, key) + 1];
    }
    SelectionEnds(ranked, |ranked|, cap, limit);
  }

  // ---------------------------------------------------------------------------
  // The token budget
  // ---------------------------------------------------------------------------

  /** For each entry, whether it is taken. */
  type Choice = seq<bool>

  function Everything(n: nat): Choice { seq(n, _ => true) }

  function Nothing(n: nat): Choice { seq(n, _ => false) }

  function Tokens(entries: seq<Entry>, choice: Choice): nat
    requires |choice| == |entries|
  {
    if entries == [] then 0
    else
      var n := |entries| - 1;
      Tokens(entries[..n], choice[..n]) + if choice[n] then entries[n].tokens else 0
  }

  function Chosen(entries: seq<Entry>, choice: Choice): (r: seq<Entry>)
    requires |choice| == |entries|
    ensures forall e :: e in r ==> e in entries
  {
    if entries == [] then []
    else
      var n := |entries| - 1;
      assert forall e :: e in entries[..n] ==> e in entries;
      Chosen(entries[..n], choice[..n]) + if choice[n] then [entries[n]] else []
  }

  /** A choice that keeps within the budget; one that takes nothing always does. */
  ghost predicate Affordable(entries: seq<Entry>, choice: Choice, budget: int) {
    |choice| == |entries| && (Tokens(entries, choice) <= budget || forall i :: 0 <= i < |choice| ==> !choice[i])
  }

  /** The choices first differ here, where this one takes the entry and the other does not. */
  predicate TakesAt(choice: Choice, other: Choice, i: nat) {
    && i < |choice| && i < |other| && choice[i] && !other[i]
    && forall k :: 0 <= k < i ==> choice[k] == other[k]
  }

  ghost predicate Prefers(choice: Choice, other: Choice) { exists i: nat :: TakesAt(choice, other, i) }

  lemma NotBothWays(a: Choice, b: Choice)
    ensures !(Prefers(a, b) && Prefers(b, a))
  {
    forall i: nat, j: nat | TakesAt(a, b, i) ensures !TakesAt(b, a, j) {
      assert a[i] && !b[i];
    }
  }

  /** The affordable choice that no affordable one is preferred to. */
  ghost predicate Preferred(entries: seq<Entry>, choice: Choice, budget: int) {
    && Affordable(entries, choice, budget)
    && forall other :: Affordable(entries, other, budget) && other != choice ==> Prefers(choice, other)
  }

  /** There is only one such choice. */
  lemma PreferredUnique(entries: seq<Entry>, a: Choice, b: Choice, budget: int)
    requires Preferred(entries, a, budget) && Preferred(entries, b, budget)
    ensures a == b
  {
    NotBothWays(a, b);
  }

  lemma {:induction false} PrefixAffordable(entries: seq<Entry>, choice: Choice, n: nat)
    requires |choice| == |entries| && n <= |entries|
    ensures Tokens(entries[..n], choice[..n]) <= Tokens(entries, choice)
  {
    if n < |entries| {
      var k := |entries| - 1;
      assert entries[..k][..n] == entries[..n] && choice[..k][..n] == choice[..n];
      PrefixAffordable(entries[..k], choice[..k], n);
    } else {
      assert entries[..n] == entries && choice[..n] == choice;
    }
  }

  /** One entry more: it is taken if there is room. */
  lemma PreferredNext(entries: seq<Entry>, choice: Choice, e: Entry, budget: int)
    requires Preferred(entries, choice, budget)
    ensures Preferred(entries + [e], choice + [Tokens(entries, choice) + e.tokens <= budget], budget)
  {
    var n := |entries|;
    var take := Tokens(entries, choice) + e.tokens <= budget;
    var all, next := entries + [e], choice + [take];
    ChosenSnoc(entries, choice, e, take);
    forall other | Affordable(all, other, budget) && other != next ensures Prefers(next, other) {
      NextPrefers(entries, choice, e, budget, other);
    }
  }

  lemma NextPrefers(entries: seq<Entry>, choice: Choice, e: Entry, budget: int, other: Choice)
    requires Preferred(entries, choice, budget) && Affordable(entries + [e], other, budget)
    ensures var next := choice + [Tokens(entries, choice) + e.tokens <= budget];
      other != next ==> Prefers(next, other)
  {
    var n := |entries|;
    var before, last := other[..n], other[n];
    assert other == before + [last];
    ChosenSnoc(entries, before, e, last);
    assert Affordable(entries, before, budget);
    var next := choice + [Tokens(entries, choice) + e.tokens <= budget];
    if before == choice {
      assert other != next ==> TakesAt(next, other, n);
    } else {
      var i: nat :| TakesAt(choice, before, i);
      assert TakesAt(next, other, i);
    }
  }

  lemma NothingPreferred(budget: int)
    ensures Preferred([], [], budget) && Tokens([], []) == 0 && Chosen([], []) == []
  {
  }

  lemma ChosenSnoc(entries: seq<Entry>, choice: Choice, e: Entry, take: bool)
    requires |choice| == |entries|
    ensures Chosen(entries + [e], choice + [take]) == Chosen(entries, choice) + if take then [e] else []
    ensures Tokens(entries + [e], choice + [take]) == Tokens(entries, choice) + if take then e.tokens else 0
  {
    assert (entries + [e])[..|entries|] == entries && (choice + [take])[..|choice|] == choice;
  }

  /** _enforce_token_budget: the first choice, in the order of the ranking, that the budget affords. */
  method EnforceTokenBudget(entries: seq<Entry>, budget: int) returns (accepted: seq<Entry>)
    ensures exists choice :: Preferred(entries, choice, budget) && accepted == Chosen(entries, choice)
  {
    var total := 0;
    accepted := [];
    ghost var choice: Choice := [];
    NothingPreferred(budget);
    for i := 0 to |entries|
      invariant Preferred(entries[..i], choice, budget)
      invariant accepted == Chosen(entries[..i], choice) && total == Tokens(entries[..i], choice)
    {
      var e := entries[i];
      var take := total + e.tokens <= budget;
      assert entries[..i + 1] == entries[..i] + [e];
      PreferredNext(entries[..i], choice, e, budget);
      ChosenSnoc(entries[..i], choice, e, take);
      choice := choice + [take];
      if !take {
        continue;
      }
      accepted := accepted + [e];
      total := total + e.tokens;
    }
    assert entries[..|entries|] == entries;
  }

  /** What is appended after the ranking, as pinned sources are, displaces nothing of it. */
  lemma AppendedDisplacesNothing(entries: seq<Entry>, appended: seq<Entry>, a: Choice, b: Choice, budget: int)
    requires Preferred(entries, a, budget) && Preferred(entries + appended, b, budget)
    ensures b[..|a|] == a
  {
    var n := |entries|;
    assert (entries + appended)[..n] == entries;
    var padded := a + Nothing(|appended|);
    PaddedTokens(entries, appended, a, |appended|);
    assert appended[..|appended|] == appended;
    assert Affordable(entries + appended, padded, budget);
    PrefixAffordable(entries + appended, b, n);
    assert Affordable(entries, b[..n], budget);
    if b[..n] != a {
      var i: nat :| TakesAt(a, b[..n], i);
      assert TakesAt(padded, b, i);
      NotBothWays(padded, b);
    }
  }

  lemma {:induction false} PaddedTokens(entries: seq<Entry>, appended: seq<Entry>, a: Choice, k: nat)
    requires |a| == |entries| && k <= |appended|
    ensures Tokens(entries + appended[..k], a + Nothing(k)) == Tokens(entries, a)
  {
    if k == 0 {
      assert entries + appended[..0] == entries && a + Nothing(0) == a;
    } else {
      PaddedTokens(entries, appended, a, k - 1);
      var before, no := entries + appended[..k - 1], a + Nothing(k - 1);
      assert entries + appended[..k] == before + [appended[k - 1]];
      assert a + Nothing(k) == no + [false];
      ChosenSnoc(before, no, appended[k - 1], false);
    }
  }

  /** Everything is admitted if and only if it all fits. */
  lemma AllAdmittedIff(entries: seq<Entry>, choice: Choice, budget: int)
    requires Preferred(entries, choice, budget)
    ensures (forall i :: 0 <= i < |choice| ==> choice[i]) <==>
            entries == [] || Tokens(entries, Everything(|entries|)) <= budget
  {
    var all := Everything(|entries|);
    if forall i :: 0 <= i < |choice| ==> choice[i] {
      assert choice == all;
      if entries != [] { assert choice[0]; }
    } else {
      var i :| 0 <= i < |choice| && !choice[i];
      assert all[i];
      forall k: nat ensures !TakesAt(choice, all, k) {
        if k < |all| { assert all[k]; }
      }
      assert !Affordable(entries, all, budget);
    }
  }

  // ---------------------------------------------------------------------------
  // When the first choice is the largest
  // ---------------------------------------------------------------------------

  /** No affordable choice has more tokens. */
  ghost predicate Largest(entries: seq<Entry>, choice: Choice, budget: int)
    requires |choice| == |entries|
  {
    forall other :: Affordable(entries, other, budget) ==> Tokens(entries, other) <= Tokens(entries, choice)
  }

  lemma {:induction false} TokensTaken(entries: seq<Entry>, choice: Choice, i: nat)
    requires |choice| == |entries| && i < |entries| && !choice[i]
    ensures Tokens(entries, choice[i := true]) == Tokens(entries, choice) + entries[i].tokens
  {
    var n := |entries| - 1;
    if i == n {
      assert choice[i := true][..n] == choice[..n];
    } else {
      assert choice[i := true][..n] == choice[..n][i := true];
      TokensTaken(entries[..n], choice[..n], i);
    }
  }

  /** Every refused entry would overflow the budget. */
  lemma RefusedOverflows(entries: seq<Entry>, choice: Choice, budget: int, i: nat)
    requires Preferred(entries, choice, budget) && i < |entries| && !choice[i]
    ensures Tokens(entries, choice) + entries[i].tokens > budget
  {
    var more := choice[i := true];
    TokensTaken(entries, choice, i);
    assert more[i] && more != choice;
    forall k: nat ensures !TakesAt(choice, more, k) {
      if k < |choice| && choice[k] { assert more[k]; }
    }
    assert !Affordable(entries, more, budget);
  }

  /** So no affordable choice is larger by as much as the smallest refused entry. */
  lemma LargerByLessThanRefused(entries: seq<Entry>, choice: Choice, other: Choice, budget: nat, i: nat)
    requires Preferred(entries, choice, budget) && i < |entries| && !choice[i]
    requires Affordable(entries, other, budget)
    ensures Tokens(entries, other) < Tokens(entries, choice) + entries[i].tokens
  {
    RefusedOverflows(entries, choice, budget, i);
    NothingCostsNothing(entries, other);
  }

  lemma {:induction false} NothingCostsNothing(entries: seq<Entry>, choice: Choice)
    requires |choice| == |entries|
    ensures (forall i :: 0 <= i < |choice| ==> !choice[i]) ==> Tokens(entries, choice) == 0
  {
    if entries != [] { NothingCostsNothing(entries[..|entries| - 1], choice[..|entries| - 1]); }
  }

  lemma {:induction false} TokensCons(e: Entry, entries: seq<Entry>, take: bool, choice: Choice)
    requires |choice| == |entries|
    ensures Tokens([e] + entries, [take] + choice) == (if take then e.tokens else 0) + Tokens(entries, choice)
  {
    var n := |entries|;
    var all, next := [e] + entries, [take] + choice;
    if n == 0 {
      assert all[..0] == [] && next[..0] == [];
    } else {
      assert all[..n] == [e] + entries[..n - 1] && next[..n] == [take] + choice[..n - 1];
      TokensCons(e, entries[..n - 1], take, choice[..n - 1]);
    }
  }

  /** The first choice, entry by entry. */
  function Greedy(entries: seq<Entry>, budget: nat): (r: Choice)
    ensures |r| == |entries|
    decreases |entries|
  {
    if entries == [] then []
    else
      var take := entries[0].tokens <= budget;
      [take] + Greedy(entries[1..], if take then budget - entries[0].tokens else budget)
  }

  /** The most that it can take. */
  function GreedyTokens(entries: seq<Entry>, budget: nat): nat { Tokens(entries, Greedy(entries, budget)) }

  lemma GreedyCons(e: Entry, entries: seq<Entry>, budget: nat)
    ensures GreedyTokens([e] + entries, budget) ==
      if e.tokens <= budget then e.tokens + GreedyTokens(entries, budget - e.tokens) else GreedyTokens(entries, budget)
  {
    var take := e.tokens <= budget;
    assert ([e] + entries)[1..] == entries;
    TokensCons(e, entries, take, Greedy(entries, if take then budget - e.tokens else budget));
  }

  lemma {:induction false} GreedyFits(entries: seq<Entry>, budget: nat)
    ensures GreedyTokens(entries, budget) <= budget
    decreases |entries|
  {
    if entries != [] {
      var e, rest := entries[0], entries[1..];
      assert entries == [e] + rest;
      GreedyCons(e, rest, budget);
      GreedyFits(rest, if e.tokens <= budget then budget - e.tokens else budget);
    }
  }

  lemma PrefersCons(take: bool, a: Choice, b: Choice)
    requires Prefers(a, b)
    ensures Prefers([take] + a, [take] + b)
  {
    var i: nat :| TakesAt(a, b, i);
    assert TakesAt([take] + a, [take] + b, i + 1);
  }

  lemma {:induction false} GreedyPreferred(entries: seq<Entry>, budget: nat)
    ensures Preferred(entries, Greedy(entries, budget), budget)
    decreases |entries|
  {
    GreedyFits(entries, budget);
    if entries != [] {
      var e, rest := entries[0], entries[1..];
      assert entries == [e] + rest;
      var take := e.tokens <= budget;
      var left := if take then budget - e.tokens else budget;
      GreedyPreferred(rest, left);
      forall other | Affordable(entries, other, budget) && other != Greedy(entries, budget)
        ensures Prefers(Greedy(entries, budget), other)
      {
        HeadDecides(e, rest, other, budget);
      }
    }
  }

  /** What the greedy choice takes first no affordable choice can have instead. */
  lemma HeadDecides(e: Entry, rest: seq<Entry>, other: Choice, budget: nat)
    requires Affordable([e] + rest, other, budget)
    requires var take := e.tokens <= budget;
      var left := if take then budget - e.tokens else budget; Preferred(rest, Greedy(rest, left), left)
    ensures other != Greedy([e] + rest, budget) ==> Prefers(Greedy([e] + rest, budget), other)
  {
    var take := e.tokens <= budget;
    var left := if take then budget - e.tokens else budget;
    var mine, tail := Greedy([e] + rest, budget), other[1..];
    assert ([e] + rest)[1..] == rest && other == [other[0]] + tail;
    TokensCons(e, rest, other[0], tail);
    NothingCostsNothing([e] + rest, other);
    if other[0] == take {
      assert Affordable(rest, tail, left);
      if tail != Greedy(rest, left) { PrefersCons(take, Greedy(rest, left), tail); }
    } else {
      assert take;
      assert TakesAt(mine, other, 0);
    }
  }

  /**
   Whatever later entries can amount to, if it is no less than an entry, they can also amount to
   that much less: taking the entry first never leaves a gap.
   */
  ghost predicate Exchangeable(entries: seq<Entry>)
    decreases |entries|
  {
    entries == [] ||
    (Exchangeable(entries[1..]) && forall c :: Overtakes(entries, c) ==> exists d :: MakesUp(entries, c, d))
  }

  ghost predicate Overtakes(entries: seq<Entry>, c: Choice)
    requires entries != []
  {
    |c| == |entries| - 1 && Tokens(entries[1..], c) >= entries[0].tokens
  }

  ghost predicate MakesUp(entries: seq<Entry>, c: Choice, d: Choice)
    requires entries != [] && |c| == |entries| - 1
  {
    |d| == |c| && entries[0].tokens + Tokens(entries[1..], d) == Tokens(entries[1..], c)
  }

  lemma {:induction false} ExchangeableLargest(entries: seq<Entry>, budget: nat, other: Choice)
    requires Exchangeable(entries) && |other| == |entries| && Tokens(entries, other) <= budget
    ensures Tokens(entries, other) <= GreedyTokens(entries, budget)
    decreases |entries|
  {
    if entries != [] {
      var e, rest, tail := entries[0], entries[1..], other[1..];
      assert entries == [e] + rest && other == [other[0]] + tail;
      TokensCons(e, rest, other[0], tail);
      GreedyCons(e, rest, budget);
      if e.tokens > budget {
        ExchangeableLargest(rest, budget, tail);
      } else if other[0] {
        ExchangeableLargest(rest, budget - e.tokens, tail);
      } else if Overtakes(entries, tail) {
        var d :| MakesUp(entries, tail, d);
        ExchangeableLargest(rest, budget - e.tokens, d);
      }
    }
  }

  ghost predicate AlwaysLargest(entries: seq<Entry>) {
    forall budget: nat, other: Choice :: |other| == |entries| && Tokens(entries, other) <= budget ==>
      Tokens(entries, other) <= GreedyTokens(entries, budget)
  }

  lemma AlwaysLargestTail(e: Entry, rest: seq<Entry>)
    requires AlwaysLargest([e] + rest)
    ensures AlwaysLargest(rest)
  {
    forall budget: nat, other: Choice | |other| == |rest| && Tokens(rest, other) <= budget
      ensures Tokens(rest, other) <= GreedyTokens(rest, budget)
    {
      TokensCons(e, rest, true, other);
      GreedyCons(e, rest, budget + e.tokens);
      assert Tokens([e] + rest, [true] + other) <= budget + e.tokens;
    }
  }

  /** Under a budget of exactly `c` the greedy choice must come to as much. */
  lemma LargestMakesUp(e: Entry, rest: seq<Entry>, c: Choice) returns (d: Choice)
    requires AlwaysLargest([e] + rest) && |c| == |rest| && Tokens(rest, c) >= e.tokens
    ensures |d| == |c| && e.tokens + Tokens(rest, d) == Tokens(rest, c)
  {
    var total := Tokens(rest, c);
    TokensCons(e, rest, false, c);
    GreedyCons(e, rest, total);
    GreedyFits(rest, total - e.tokens);
    assert Tokens([e] + rest, [false] + c) <= total;
    d := Greedy(rest, total - e.tokens);
  }

  lemma {:induction false} LargestExchangeable(entries: seq<Entry>)
    requires AlwaysLargest(entries)
    ensures Exchangeable(entries)
    decreases |entries|
  {
    if entries != [] {
      assert entries == [entries[0]] + entries[1..];
      AlwaysLargestTail(entries[0], entries[1..]);
      LargestExchangeable(entries[1..]);
      forall c | Overtakes(entries, c) ensures exists d :: MakesUp(entries, c, d) {
        var d := LargestMakesUp(entries[0], entries[1..], c);
        assert MakesUp(entries, c, d);
      }
    }
  }

  /** Under every budget the largest affordable context is kept, if and only if no entry leaves a gap. */
  lemma LargestIff(entries: seq<Entry>)
    ensures Exchangeable(entries) <==>
      forall budget: nat, choice :: Preferred(entries, choice, budget) ==> Largest(entries, choice, budget)
  {
    if Exchangeable(entries) {
      forall budget: nat, choice | Preferred(entries, choice, budget) ensures Largest(entries, choice, budget) {
        GreedyPreferred(entries, budget);
        PreferredUnique(entries, choice, Greedy(entries, budget), budget);
        forall other | Affordable(entries, other, budget) ensures Tokens(entries, other) <= Tokens(entries, choice) {
          NothingCostsNothing(entries, other);
          ExchangeableLargest(entries, budget, other);
        }
      }
    }
    if forall budget: nat, choice :: Preferred(entries, choice, budget) ==> Largest(entries, choice, budget) {
      forall budget: nat, other: Choice | |other| == |entries| && Tokens(entries, other) <= budget
        ensures Tokens(entries, other) <= GreedyTokens(entries, budget)
      {
        GreedyPreferred(entries, budget);
        assert Largest(entries, Greedy(entries, budget), budget);
      }
      LargestExchangeable(entries);
    }
  }

  /** Entries of equal size leave no gap. */
  lemma {:induction false} EqualSizesExchangeable(entries: seq<Entry>, size: nat)
    requires forall i :: 0 <= i < |entries| ==> entries[i].tokens == size
    ensures Exchangeable(entries)
    decreases |entries|
  {
    if entries != [] {
      EqualSizesExchangeable(entries[1..], size);
      forall c | Overtakes(entries, c) ensures exists d :: MakesUp(entries, c, d) {
        if size == 0 {
          assert MakesUp(entries, c, c);
        } else {
          NothingCostsNothing(entries[1..], c);
          var i :| 0 <= i < |c| && c[i];
          var d := c[i := false];
          TokensTaken(entries[1..], d, i);
          assert d[i := true] == c;
          assert MakesUp(entries, c, d);
        }
      }
    }
  }

  /** A choice that takes everything, or uses the budget up, is the largest whatever the sizes. */
  lemma FullIsLargest(entries: seq<Entry>, choice: Choice, budget: nat)
    requires Preferred(entries, choice, budget)
    requires Tokens(entries, choice) == budget || forall i :: 0 <= i < |choice| ==> choice[i]
    ensures Largest(entries, choice, budget)
  {
    forall other | Affordable(entries, other, budget) ensures Tokens(entries, other) <= Tokens(entries, choice) {
      NothingCostsNothing(entries, other);
      if forall i :: 0 <= i < |choice| ==> choice[i] { NoneCostsMore(entries, choice, other); }
    }
  }

  lemma {:induction false} NoneCostsMore(entries: seq<Entry>, all: Choice, other: Choice)
    requires |all| == |other| == |entries| && forall i :: 0 <= i < |all| ==> all[i]
    ensures Tokens(entries, other) <= Tokens(entries, all)
  {
    if entries != [] {
      var n := |entries| - 1;
      NoneCostsMore(entries[..n], all[..n], other[..n]);
    }
  }

  /** The first choice is not always the one with the most tokens. */
  lemma NotTheLargest()
    ensures exists entries, choice, other, budget ::
      && Preferred(entries, choice, budget) && Affordable(entries, other, budget)
      && Tokens(entries, choice) < Tokens(entries, other)
  {
    var small, large := Entry(None, "a", 1), Entry(None, "b", 10);
    NothingPreferred(10);
    PreferredNext([], [], small, 10);
    ChosenSnoc([], [], small, true);
    assert [] + [small] == [small] && [] + [true] == [true];
    PreferredNext([small], [true], large, 10);
    ChosenSnoc([small], [true], large, false);
    ChosenSnoc([], [], small, false);
    assert [] + [false] == [false];
    ChosenSnoc([small], [false], large, true);
    var entries, other := [small] + [large], [false] + [true];
    assert Affordable(entries, other, 10);
  }
}
