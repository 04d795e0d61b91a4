/**
 Overlapping chunks of a knowledge source (knowledge_manager.py, _chunk_text, _build_chunks,
 _commit_source and _rechunk_source).

 A chunk is the stripped text of a window of the normalized source. The chunker is a loop over
 window starts; the lemmas are about the sequence of windows it visits.
 */
module Chunking {
  import opened Wrappers
  import opened Text
  import Lists

  /** `s.rfind(' ', start, end)`: the last space of `s` in `[start, end)`. */
  function LastSpace(s: string, start: nat, end: nat): (r: Option<nat>)
    requires start <= end <= |s|
    ensures r.Some? ==> start <= r.value < end
    decreases end
  {
    if start == end then None
    else if s[end - 1] == ' ' then Some(end - 1)
    else LastSpace(s, start, end - 1)
  }

  lemma {:induction false} LastSpaceSpec(s: string, start: nat, end: nat)
    requires start <= end <= |s|
    ensures match LastSpace(s, start, end)
      case Some(k) => s[k] == ' ' && forall i :: k < i < end ==> s[i] != ' '
      case None => forall i :: start <= i < end ==> s[i] != ' '
    decreases end
  {
    if start < end && s[end - 1] != ' ' { LastSpaceSpec(s, start, end - 1); }
  }

  datatype Window = Window(start: nat, end: nat)

  /** A window ends at the last space that is not its first character, or is cut at `size`. */
  function WindowEnd(s: string, size: nat, start: nat): (e: nat)
    requires size > 0 && start < |s|
    ensures start < e <= |s| && e - start <= size
  {
    var cut := if start + size <= |s| then start + size else |s|;
    if cut == |s| then cut
    else
      var boundary := LastSpace(s, start, cut);
      if boundary.Some? && boundary.value > start then boundary.value else cut
  }

  function NextStart(end: nat, overlap: nat, start: nat): nat {
    if end >= overlap && end - overlap > start + 1 then end - overlap else start + 1
  }

  /** The windows that the chunker visits from `start` on. */
  function Windows(s: string, size: nat, overlap: nat, start: nat): (ws: seq<Window>)
    requires overlap < size && start <= |s|
    ensures start < |s| ==> ws != []
    ensures forall i :: 0 <= i < |ws| ==> ws[i].start < ws[i].end <= |s|
    decreases |s| - start
  {
    if start == |s| then []
    else
      var e := WindowEnd(s, size, start);
      [Window(start, e)] + (if e == |s| then [] else Windows(s, size, overlap, NextStart(e, overlap, start)))
  }

  /** The trimmed texts of the windows, empty ones left out. The program trims with `str.strip`. */
  function WindowTexts(s: string, ws: seq<Window>, trim: string -> string): seq<string>
    requires forall i :: 0 <= i < |ws| ==> ws[i].start < ws[i].end <= |s|
  {
    if ws == [] then []
    else
      var text := trim(s[ws[0].start..ws[0].end]);
      (if text != "" then [text] else []) + WindowTexts(s, ws[1..], trim)
  }

  /** The chunks of a normalized text. */
  function ChunksOf(s: string, size: nat, overlap: nat, trim: string -> string): seq<string>
    requires overlap < size
  {
    if |s| <= size then (if s == "" then [] else [s])
    else WindowTexts(s, Windows(s, size, overlap, 0), trim)
  }

  /** The chunks of a text. */
  function Chunks(text: string, size: nat, overlap: nat): seq<string>
    requires overlap < size
  {
    ChunksOf(Collapse(text), size, overlap, Strip)
  }

  datatype SizingError = InvalidChunkSizing

  /** _chunk_text. */
  method ChunkText(text: string, size: int, overlap: int) returns (r: Result<seq<string>, SizingError>)
    ensures r.Err? <==> size <= 0 || overlap < 0 || overlap >= size
    ensures r.Ok? ==> r.value == Chunks(text, size, overlap)
  {
    if size <= 0 || overlap < 0 || overlap >= size {
      return Err(InvalidChunkSizing);
    }
    var normalized := Collapse(text);
    var chunks := ChunkNormalized(normalized, size, overlap, Strip);
    r := Ok(chunks);
  }

  /** The rest of _chunk_text, after the text has been normalized. */
  method ChunkNormalized(s: string, size: nat, overlap: nat, trim: string -> string) returns (chunks: seq<string>)
    requires overlap < size
    ensures chunks == ChunksOf(s, size, overlap, trim)
  {
    if |s| <= size {
      return if s != "" then [s] else [];
    }
    chunks := ChunkWindows(s, size, overlap, trim);
  }

  /** The loop of _chunk_text. */
  method ChunkWindows(s: string, size: nat, overlap: nat, trim: string -> string) returns (chunks: seq<string>)
    requires overlap < size && s != ""
    ensures chunks == WindowTexts(s, Windows(s, size, overlap, 0), trim)
  {
    chunks := [];
    var start := 0;
    ghost var todo := WindowTexts(s, Windows(s, size, overlap, 0), trim);
    ghost var all := todo;
    while start < |s|
      invariant 0 <= start < |s|
      invariant Pending(s, size, overlap, start, trim, todo)
      invariant Joins(chunks, todo, all)
    {
      var end := CutWindow(s, size, start);
      var chunk := trim(s[start..end]);
      ghost var rest := WindowsStep(s, size, overlap, start, end, trim);
      JoinsStep(chunks, chunk, rest, todo, all);
      todo := rest;
      if chunk != "" {
        chunks := chunks + [chunk];
      }
      if end >= |s| {
        break;
      }
      start := if end - overlap > start + 1 then end - overlap else start + 1;
    }
  }

  /** `todo` is what the windows from `start` on will add. */
  ghost predicate Pending(s: string, size: nat, overlap: nat, start: nat, trim: string -> string, todo: seq<string>)
    requires overlap < size && start < |s|
  {
    todo == WindowTexts(s, Windows(s, size, overlap, start), trim)
  }

  ghost predicate Joins(a: seq<string>, b: seq<string>, all: seq<string>) {
    a + b == all && (b == [] ==> a == all)
  }

  lemma JoinsStep(a: seq<string>, c: string, rest: seq<string>, b: seq<string>, all: seq<string>)
    requires Joins(a, b, all) && b == (if c != "" then [c] else []) + rest
    ensures Joins(if c != "" then a + [c] else a, rest, all)
  {
  }

  /** The end of the window at `start`, as the loop finds it. */
  method CutWindow(s: string, size: nat, start: nat) returns (end: nat)
    requires size > 0 && start < |s|
    ensures end == WindowEnd(s, size, start)
  {
    end := if start + size <= |s| then start + size else |s|;
    if end < |s| {
      var boundary := LastSpace(s, start, end);
      if boundary.Some? && boundary.value > start {
        end := boundary.value;
      }
    }
  }

  lemma WindowsStep(s: string, size: nat, overlap: nat, start: nat, end: nat, trim: string -> string)
    returns (rest: seq<string>)
    requires overlap < size && start < |s| && end == WindowEnd(s, size, start)
    ensures var text := trim(s[start..end]);
      WindowTexts(s, Windows(s, size, overlap, start), trim) == (if text != "" then [text] else []) + rest
    ensures end == |s| ==> rest == []
    ensures end < |s| ==> start < NextStart(end, overlap, start) < |s|
    ensures end < |s| ==> rest == WindowTexts(s, Windows(s, size, overlap, NextStart(end, overlap, start)), trim)
  {
    var after := if end == |s| then [] else Windows(s, size, overlap, NextStart(end, overlap, start));
    var ws := Windows(s, size, overlap, start);
    assert ws[1..] == after && ws[0] == Window(start, end);
    rest := WindowTexts(s, after, trim);
  }

  /**
   The windows of a text: they begin at `start` and end with the text, none is longer than `size`,
   each begins after the previous one began and no later than it ended, and two neighbours share
   at most `overlap` characters. A window that is not the last ends at a space, unless it is full
   and has no space behind its first character.
   */
  ghost predicate Tiles(ws: seq<Window>, s: string, size: nat, overlap: nat, start: nat) {
    && ws != [] && ws[0].start == start && ws[|ws| - 1].end == |s|
    && (forall i :: 0 <= i < |ws| ==> ws[i].start < ws[i].end <= |s| && ws[i].end - ws[i].start <= size)
    && (forall i :: 0 <= i < |ws| - 1 ==> Follows(s, size, overlap, ws[i], ws[i + 1]))
  }

  ghost predicate Follows(s: string, size: nat, overlap: nat, w: Window, next: Window) {
    && w.start < next.start <= w.end && w.end - next.start <= overlap
    && w.end < |s|
    && (s[w.end] == ' ' || (w.end == w.start + size && forall k :: w.start < k < w.end && k < |s| ==> s[k] != ' '))
  }

  lemma {:induction false} WindowsTile(s: string, size: nat, overlap: nat, start: nat)
    requires overlap < size && start < |s|
    ensures Tiles(Windows(s, size, overlap, start), s, size, overlap, start)
    decreases |s| - start
  {
    var e := WindowEnd(s, size, start);
    if e < |s| {
      LastSpaceSpec(s, start, start + size);
      var next := NextStart(e, overlap, start);
      WindowsTile(s, size, overlap, next);
      var rest := Windows(s, size, overlap, next);
      assert rest[0].start == next;
      TilesCons(Window(start, e), rest, s, size, overlap);
    }
  }

  lemma TilesCons(w: Window, rest: seq<Window>, s: string, size: nat, overlap: nat)
    requires rest != [] && Tiles(rest, s, size, overlap, rest[0].start)
    requires w.start < w.end <= |s| && w.end - w.start <= size && Follows(s, size, overlap, w, rest[0])
    ensures Tiles([w] + rest, s, size, overlap, w.start)
  {
    var ws := [w] + rest;
    forall i | 0 <= i < |ws| - 1 ensures Follows(s, size, overlap, ws[i], ws[i + 1]) {
      if i > 0 { assert ws[i] == rest[i - 1] && ws[i + 1] == rest[i]; }
    }
  }

  /** No gap: every position of the text lies in some window. */
  lemma {:induction false} WindowsCover(ws: seq<Window>, s: string, size: nat, overlap: nat, start: nat, k: nat)
    requires Tiles(ws, s, size, overlap, start) && start <= k < |s|
    ensures exists i :: 0 <= i < |ws| && ws[i].start <= k < ws[i].end
    decreases |ws|
  {
    if k >= ws[0].end {
      var rest := ws[1..];
      assert |ws| > 1;
      assert forall i :: 0 <= i < |rest| ==> rest[i] == ws[i + 1];
      assert Tiles(rest, s, size, overlap, rest[0].start);
      WindowsCover(rest, s, size, overlap, rest[0].start, k);
      var i :| 0 <= i < |rest| && rest[i].start <= k < rest[i].end;
      assert ws[i + 1].start <= k < ws[i + 1].end;
    }
  }

  lemma {:induction false} WindowTextsAre(s: string, ws: seq<Window>, trim: string -> string, c: string)
    requires forall i :: 0 <= i < |ws| ==> ws[i].start < ws[i].end <= |s|
    requires c in WindowTexts(s, ws, trim)
    ensures c != "" && exists i :: 0 <= i < |ws| && c == trim(s[ws[i].start..ws[i].end])
    decreases |ws|
  {
    var text := trim(s[ws[0].start..ws[0].end]);
    if c == text != "" {
      assert c == trim(s[ws[0].start..ws[0].end]);
    } else {
      var rest := ws[1..];
      WindowTextsAre(s, rest, trim, c);
      var i :| 0 <= i < |rest| && c == trim(s[rest[i].start..rest[i].end]);
      assert ws[i + 1] == rest[i];
    }
  }

  /** `c` is a contiguous part of `s`, at most `n` long, with no white space at either end. */
  ghost predicate TrimmedPart(s: string, c: string, n: nat) {
    Contains(s, c) && |c| <= n && (c != "" ==> !IsSpace(c[0]) && !IsSpace(c[|c| - 1]))
  }

  ghost predicate Trims(s: string, trim: string -> string) {
    forall a, b :: 0 <= a <= b <= |s| ==> TrimmedPart(s, trim(s[a..b]), b - a)
  }

  lemma StripTrims(s: string)
    ensures Trims(s, Strip)
  {
    forall a, b | 0 <= a <= b <= |s| ensures TrimmedPart(s, Strip(s[a..b]), b - a) {
      var w := s[a..b];
      StripEnds(w);
      assert s == s[..a] + w + s[b..];
      ContainsPart(s[..a], w, s[b..]);
      ContainsTransitive(s, w, Strip(w));
    }
  }

  lemma WindowChunkShape(s: string, size: nat, overlap: nat, trim: string -> string, c: string)
    requires overlap < size < |s| && Trims(s, trim) && c in ChunksOf(s, size, overlap, trim)
    ensures c != "" && TrimmedPart(s, c, size)
  {
    WindowsTile(s, size, overlap, 0);
    var ws := Windows(s, size, overlap, 0);
    WindowTextsAre(s, ws, trim, c);
    var i :| 0 <= i < |ws| && c == trim(s[ws[i].start..ws[i].end]);
    assert TrimmedPart(s, trim(s[ws[i].start..ws[i].end]), ws[i].end - ws[i].start);
  }

  lemma WholeIsPart(s: string)
    requires s != "" ==> !IsSpace(s[0]) && !IsSpace(s[|s| - 1])
    ensures TrimmedPart(s, s, |s|)
  {
    assert s == "" + s + "";
    ContainsPart("", s, "");
  }

  lemma NormalizedChunkShape(s: string, size: nat, overlap: nat, trim: string -> string, c: string)
    requires overlap < size && (s != "" ==> !IsSpace(s[0]) && !IsSpace(s[|s| - 1]))
    requires Trims(s, trim) && c in ChunksOf(s, size, overlap, trim)
    ensures c != "" && TrimmedPart(s, c, size)
  {
    if |s| <= size {
      WholeIsPart(s);
    } else {
      WindowChunkShape(s, size, overlap, trim, c);
    }
  }

  lemma CollapsedEnds(text: string)
    ensures var s := Collapse(text); s != "" ==> !IsSpace(s[0]) && !IsSpace(s[|s| - 1])
  {
    StripEnds(Squeeze(text));
  }

  /** Every chunk is a contiguous part of the normalized text, within the size and trimmed. */
  lemma ChunkShape(text: string, size: nat, overlap: nat, c: string)
    requires overlap < size && c in Chunks(text, size, overlap)
    ensures c != "" && TrimmedPart(Collapse(text), c, size)
  {
    CollapsedEnds(text);
    StripTrims(Collapse(text));
    NormalizedChunkShape(Collapse(text), size, overlap, Strip, c);
  }

  // ---------------------------------------------------------------------------
  // Commit and rebuild
  // ---------------------------------------------------------------------------

  /** The normalized text of a source chunks as the source itself does. */
  lemma NormalizedChunksAlike(text: string, size: nat, overlap: nat)
    requires overlap < size
    ensures Chunks(Collapse(text), size, overlap) == Chunks(text, size, overlap)
  {
    CollapseIdempotent(text);
  }

  /** The last `o` characters of the one are the first `o` of the other. */
  predicate Shares(a: string, b: string, o: nat) { o <= |a| && o <= |b| && a[|a| - o..] == b[..o] }

  /** How far an overlap is looked for. */
  function SearchLimit(a: string, b: string, overlap: nat): (n: nat)
    ensures n <= |a| && n <= |b| && n <= 3 * overlap
  {
    var shorter := if |a| <= |b| then |a| else |b|;
    if shorter <= 3 * overlap then shorter else 3 * overlap
  }

  /** The longest shared end within the limit. */
  ghost predicate IsLongestShared(a: string, b: string, overlap: nat, o: nat) {
    && o <= SearchLimit(a, b, overlap) && Shares(a, b, o)
    && forall k: nat :: o < k <= SearchLimit(a, b, overlap) ==> !Shares(a, b, k)
  }

  /** It is cut after the last position, up to three overlaps, at which the one ends as the other begins. */
  lemma LongestSharedIff(a: string, b: string, overlap: nat, o: nat)
    ensures IsLongestShared(a, b, overlap, o) <==>
      && o <= |a| && o <= |b| && o <= 3 * overlap && a[|a| - o..] == b[..o]
      && forall k: nat :: o < k && k <= |a| && k <= |b| && k <= 3 * overlap ==> a[|a| - k..] != b[..k]
  {
    if o <= |a| && o <= |b| && o <= 3 * overlap && a[|a| - o..] == b[..o]
      && forall k: nat :: o < k && k <= |a| && k <= |b| && k <= 3 * overlap ==> a[|a| - k..] != b[..k]
    {
      forall k: nat | o < k <= SearchLimit(a, b, overlap) ensures !Shares(a, b, k) {
      }
    }
    if IsLongestShared(a, b, overlap, o) {
      forall k: nat | o < k && k <= |a| && k <= |b| && k <= 3 * overlap ensures a[|a| - k..] != b[..k] {
        assert !Shares(a, b, k);
      }
    }
  }

  /** A chunk within the limit that the one before ends with adds nothing. */
  lemma RepeatedDropped(before: string, chunk: string, part: string, overlap: nat)
    requires |chunk| <= 3 * overlap && |chunk| <= |before| && before[|before| - |chunk|..] == chunk
    ensures NextPart(before, chunk, part, overlap) <==> part == ""
  {
    assert chunk[..|chunk|] == chunk && chunk[|chunk|..] == "";
    LongestSharedIff(before, chunk, overlap, |chunk|);
    assert IsLongestShared(before, chunk, overlap, |chunk|);
    if NextPart(before, chunk, part, overlap) { NextPartOnce(before, chunk, part, "", overlap); }
  }

  /** `part` is the chunk without the longest end it shares with the part before. */
  ghost predicate NextPart(before: string, chunk: string, part: string, overlap: nat) {
    exists o: nat :: IsLongestShared(before, chunk, overlap, o) && part == chunk[o..]
  }

  ghost predicate Deduplicates(parts: seq<string>, chunks: seq<string>, overlap: nat) {
    && |parts| == |chunks|
    && (parts != [] ==> parts[0] == chunks[0])
    && forall i :: 0 < i < |parts| ==> NextPart(parts[i - 1], chunks[i], parts[i], overlap)
  }

  lemma NextPartOnce(before: string, chunk: string, part: string, other: string, overlap: nat)
    requires NextPart(before, chunk, part, overlap) && NextPart(before, chunk, other, overlap)
    ensures part == other
  {
    var o: nat :| IsLongestShared(before, chunk, overlap, o) && part == chunk[o..];
    var p: nat :| IsLongestShared(before, chunk, overlap, p) && other == chunk[p..];
    assert o == p;
  }

  /** There is only one way to do so. */
  lemma {:induction false} DeduplicatedOnce(parts: seq<string>, others: seq<string>, chunks: seq<string>, overlap: nat,
      n: nat)
    requires Deduplicates(parts, chunks, overlap) && Deduplicates(others, chunks, overlap) && n <= |chunks|
    ensures forall i :: 0 <= i < n ==> parts[i] == others[i]
  {
    if n > 0 {
      DeduplicatedOnce(parts, others, chunks, overlap, n - 1);
      if n > 1 { NextPartOnce(parts[n - 2], chunks[n - 1], parts[n - 1], others[n - 1], overlap); }
    }
  }

  function NonEmpty(): string -> bool { (p: string) => p != "" }

  /** The reconstructed text of a source that was stored without its normalized text. */
  ghost predicate IsRejoined(text: string, chunks: seq<string>, overlap: nat) {
    exists parts :: Deduplicates(parts, chunks, overlap) && text == Join(" ", Lists.Filter(parts, NonEmpty()))
  }

  method LongestShared(a: string, b: string, overlap: nat) returns (o: nat)
    ensures IsLongestShared(a, b, overlap, o)
  {
    o := SearchLimit(a, b, overlap);
    while o > 0
      invariant o <= SearchLimit(a, b, overlap)
      invariant forall k: nat :: o < k <= SearchLimit(a, b, overlap) ==> !Shares(a, b, k)
    {
      if a[|a| - o..] == b[..o] {
        return;
      }
      o := o - 1;
    }
    assert a[|a|..] == b[..0] == "";
  }

  /** The fallback of _rechunk_source. */
  method Rejoin(chunks: seq<string>, overlap: nat) returns (text: string)
    requires chunks != []
    ensures IsRejoined(text, chunks, overlap)
  {
    var parts := [chunks[0]];
    for i := 1 to |chunks|
      invariant Deduplicates(parts, chunks[..i], overlap)
    {
      var o := LongestShared(parts[i - 1], chunks[i], overlap);
      assert chunks[..i + 1] == chunks[..i] + [chunks[i]];
      DeduplicatesSnoc(parts, chunks[..i], overlap, chunks[i], o);
      parts := parts + [chunks[i][o..]];
    }
    assert chunks[..|chunks|] == chunks;
    text := Join(" ", Lists.Filter(parts, NonEmpty()));
  }

  lemma DeduplicatesSnoc(parts: seq<string>, chunks: seq<string>, overlap: nat, c: string, o: nat)
    requires Deduplicates(parts, chunks, overlap) && parts != []
    requires IsLongestShared(parts[|parts| - 1], c, overlap, o)
    ensures Deduplicates(parts + [c[o..]], chunks + [c], overlap)
  {
    var more, all := parts + [c[o..]], chunks + [c];
    assert NextPart(parts[|parts| - 1], c, c[o..], overlap);
    forall i | 0 < i < |more| ensures NextPart(more[i - 1], all[i], more[i], overlap) {
      if i < |parts| { assert NextPart(parts[i - 1], chunks[i], parts[i], overlap); }
    }
  }

  /** What is reconstructed is determined by the chunks. */
  lemma RejoinedOnce(text: string, other: string, chunks: seq<string>, overlap: nat)
    requires IsRejoined(text, chunks, overlap) && IsRejoined(other, chunks, overlap)
    ensures text == other
  {
    var parts :| Deduplicates(parts, chunks, overlap) && text == Join(" ", Lists.Filter(parts, NonEmpty()));
    var others :| Deduplicates(others, chunks, overlap) && other == Join(" ", Lists.Filter(others, NonEmpty()));
    DeduplicatedOnce(parts, others, chunks, overlap, |chunks|);
    assert parts == others;
  }

  /** A source of one chunk is reconstructed exactly. */
  lemma OneChunkRejoined(text: string, c: string, overlap: nat)
    requires IsRejoined(text, [c], overlap)
    ensures text == c
  {
    var parts :| Deduplicates(parts, [c], overlap) && text == Join(" ", Lists.Filter(parts, NonEmpty()));
    assert parts == [c];
    assert [c][1..] == [];
  }

  lemma TwoWords(a: string, b: string)
    requires a != "" && b != ""
    ensures Join(" ", Lists.Filter([a, b], NonEmpty())) == a + " " + b
  {
    assert [a, b][1..] == [b] && [b][1..] == [];
    assert Lists.Filter([b], NonEmpty()) == [b];
    assert Lists.Filter([a, b], NonEmpty()) == [a, b];
  }

  /** Chunks cut without overlap inside a word are joined by a space that was not there. */
  lemma RejoinedGrows(text: string, a: string, b: string)
    requires a != "" && b != "" && IsRejoined(text, [a, b], 0)
    ensures text == a + " " + b
  {
    var chunks := [a, b];
    var parts :| Deduplicates(parts, chunks, 0) && text == Join(" ", Lists.Filter(parts, NonEmpty()));
    assert NextPart(parts[0], chunks[1], parts[1], 0);
    assert parts[1] == b[0..] == b;
    assert parts == [a, b];
    TwoWords(a, b);
  }

  /** One stored source: its chunks and the normalized text kept in its metadata, if it was. */
  class StoredSource {
    const size: nat
    const overlap: nat
    var normalizedText: Option<string>
    var chunks: seq<string>

    ghost predicate Sized()
      reads this
    {
      overlap < size
    }

    /** The chunks are those of the stored text, and the stored text is in normal form. */
    ghost predicate Valid()
      reads this
    {
      && Sized() && normalizedText.Some?
      && Collapse(normalizedText.value) == normalizedText.value
      && chunks == Chunks(normalizedText.value, size, overlap)
    }

    /** _commit_source for a new source. */
    constructor (text: string, size: nat, overlap: nat)
      requires overlap < size
      ensures Valid() && this.size == size && this.overlap == overlap
      ensures chunks == Chunks(text, size, overlap)
    {
      this.size, this.overlap := size, overlap;
      var pieces := ChunkText(text, size, overlap);
      chunks := pieces.value;
      normalizedText := Some(Collapse(text));
      CollapseIdempotent(text);
    }

    /** _commit_source for a source that is ingested again. */
    method Recommit(text: string)
      requires Sized()
      modifies this
      ensures Valid() && chunks == Chunks(text, size, overlap)
    {
      var pieces := ChunkText(text, size, overlap);
      chunks := pieces.value;
      normalizedText := Some(Collapse(text));
      CollapseIdempotent(text);
    }

    /**
     _rechunk_source. Without a stored text, or with an empty one, the text is reconstructed from
     the stored chunks; it is not stored then.
     */
    method Rechunk()
      requires Sized()
      modifies this`chunks
      ensures old(Valid()) ==> chunks == old(chunks)
      ensures normalizedText.Some? && normalizedText.value != "" ==>
        chunks == Chunks(normalizedText.value, size, overlap)
      ensures normalizedText.None? || normalizedText.value == "" ==>
        if old(chunks) == [] then chunks == []
        else exists text :: IsRejoined(text, old(chunks), overlap) && chunks == Chunks(text, size, overlap)
    {
      if normalizedText.Some? && normalizedText.value != "" {
        var pieces := ChunkText(normalizedText.value, size, overlap);
        chunks := pieces.value;
      } else if chunks != [] {
        var text := Rejoin(chunks, overlap);
        var pieces := ChunkText(text, size, overlap);
        chunks := pieces.value;
      }
    }

    /** Any number of index rebuilds. */
    method RebuildTimes(n: nat)
      requires Valid()
      modifies this
      ensures Valid() && chunks == old(chunks)
    {
      for i := 0 to n
        invariant Valid() && chunks == old(chunks)
      {
        Rechunk();
      }
    }
  }
}
