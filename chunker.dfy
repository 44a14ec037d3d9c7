/**
 The chunker of the ingestion script: the text is cleaned (whitespace runs become
 one space, the ends are stripped), then a window of `chunkSize` characters slides
 over it, each next window starting `overlap` characters before the previous one
 ended. A window that does not reach the end of the text is cut at a sentence break
 in its final `Lookback` characters: the patterns are tried in list order, and the
 last occurrence of the first pattern that has one decides the cut. Stripped pieces
 shorter than `MinChunkSize` are dropped.
 */
module Chunker {
  import opened Text

  const ChunkSize := 500
  const ChunkOverlap := 100
  const MinChunkSize := 50
  /** How far back from the window end a sentence break is looked for. */
  const Lookback := 100
  /** The break patterns, tried in this order; the first one found wins. */
  const SentenceEnds: seq<string> := [". ", ".\n", "? ", "!\n"]

  function Min(a: int, b: int): int { if a <= b then a else b }

  function Max(a: int, b: int): int { if a >= b then a else b }

  /** Parameters for which every turn of the chunking loop moves the window forward. */
  predicate ValidParams(chunkSize: int, overlap: int) {
    0 <= overlap && overlap + Lookback <= chunkSize
  }

  /** A sentence break: a period, question mark or exclamation mark and the whitespace after it. */
  lemma SentenceEndAt(text: string, k: int, i: int)
    requires 0 <= k < |SentenceEnds|
    ensures MatchAt(text, SentenceEnds[k], i) ==>
              && 0 <= i && i + 1 < |text|
              && (text[i] == '.' || text[i] == '?' || text[i] == '!')
              && (text[i + 1] == ' ' || text[i + 1] == '\n')
              && (text[i + 1] == ' ' ==> text[i] == '.' || text[i] == '?')
  {
    if MatchAt(text, SentenceEnds[k], i) {
      var p := SentenceEnds[k];
      assert p == ". " || p == ".\n" || p == "? " || p == "!\n";
      assert text[i] == p[0] && text[i + 1] == p[1];
    }
  }

  /** The text the window slides over: `re.sub(r'\s+', ' ', text).strip()`. */
  function Clean(text: string): (r: string)
    ensures Collapsed(r)
    ensures |r| == 0 || (!IsSpace(r[0]) && !IsSpace(r[|r| - 1]))
  {
    CollapseIsCollapsed(text);
    StripCollapsed(Collapse(text));
    Strip(Collapse(text))
  }

  /** Patterns that are not the empty string. */
  predicate NonEmpty(pats: seq<string>) {
    forall p :: p in pats ==> |p| > 0
  }

  /**
   The `for punct in [...]` loop with its `break`, over the patterns `pats` still to
   try: the window end moves to just after the punctuation of the last occurrence,
   inside `text[searchStart:end]` and beyond `start`, of the first pattern that has
   one; otherwise `end` is kept.
   */
  function CutEnd(text: string, start: nat, searchStart: nat, end: nat, pats: seq<string>): (e: int)
    requires searchStart <= end <= |text| && NonEmpty(pats)
    ensures e == end || Max(searchStart, start + 1) < e < end
  {
    if |pats| == 0 then end
    else
      var lastPeriod := RFind(text, pats[0], searchStart, end);
      if lastPeriod > start then lastPeriod + 1 else CutEnd(text, start, searchStart, end, pats[1..])
  }

  /** No occurrence of `pat` beyond `start` lies wholly inside `text[searchStart:end]`. */
  predicate NoBreakAfter(text: string, pat: string, start: int, searchStart: int, end: int) {
    forall q :: start < q && searchStart <= q && q + |pat| <= end ==> !MatchAt(text, pat, q)
  }

  /**
   Which break a cut end follows: the last occurrence inside `text[searchStart:end]` of
   some pattern `pats[k0]`, beyond `start`, where no earlier pattern in the list has an
   occurrence beyond `start` in that range.
   */
  lemma {:induction false} CutEndAtBreak(text: string, start: nat, searchStart: nat, end: nat, pats: seq<string>)
    requires searchStart <= end <= |text| && NonEmpty(pats)
    requires CutEnd(text, start, searchStart, end, pats) != end
    ensures var e := CutEnd(text, start, searchStart, end, pats);
            exists k0 :: 0 <= k0 < |pats|
              && MatchAt(text, pats[k0], e - 1) && start < e - 1 && searchStart <= e - 1 && e - 1 + |pats[k0]| <= end
              && (forall q :: e - 1 < q && q + |pats[k0]| <= end ==> !MatchAt(text, pats[k0], q))
              && (forall j :: 0 <= j < k0 ==> NoBreakAfter(text, pats[j], start, searchStart, end))
  {
    var e := CutEnd(text, start, searchStart, end, pats);
    var lastPeriod := RFind(text, pats[0], searchStart, end);
    RFindSpec(text, pats[0], searchStart, end);
    if lastPeriod > start {
      assert e - 1 == lastPeriod;
    } else {
      var rest := pats[1..];
      assert e == CutEnd(text, start, searchStart, end, rest);
      assert NoBreakAfter(text, pats[0], start, searchStart, end);
      CutEndAtBreak(text, start, searchStart, end, rest);
      var k :| 0 <= k < |rest|
        && MatchAt(text, rest[k], e - 1) && start < e - 1 && searchStart <= e - 1 && e - 1 + |rest[k]| <= end
        && (forall q :: e - 1 < q && q + |rest[k]| <= end ==> !MatchAt(text, rest[k], q))
        && (forall j :: 0 <= j < k ==> NoBreakAfter(text, rest[j], start, searchStart, end));
      assert rest[k] == pats[k + 1];
      assert forall j :: 0 < j < k + 1 ==> pats[j] == rest[j - 1];
    }
  }

  /** Patterns of two characters or more: a cut then always lands before the window end. */
  predicate AtLeastTwo(pats: seq<string>) {
    forall p :: p in pats ==> |p| >= 2
  }

  /**
   The converse: an occurrence of one of the patterns beyond `start`, wholly inside
   `text[searchStart:end]`, forces a cut.
   */
  lemma {:induction false} CutEndWhenBreak(text: string, start: nat, searchStart: nat, end: nat, pats: seq<string>, k: int, p: int)
    requires searchStart <= end <= |text| && NonEmpty(pats) && AtLeastTwo(pats)
    requires 0 <= k < |pats| && MatchAt(text, pats[k], p)
    requires start < p && searchStart <= p && p + |pats[k]| <= end
    ensures CutEnd(text, start, searchStart, end, pats) != end
  {
    var lastPeriod := RFind(text, pats[0], searchStart, end);
    RFindSpec(text, pats[0], searchStart, end);
    if lastPeriod > start {
      assert |pats[0]| >= 2;
    } else {
      assert k != 0;
      assert pats[1..][k - 1] == pats[k];
      CutEndWhenBreak(text, start, searchStart, end, pats[1..], k - 1, p);
    }
  }

  /** Where the window starting at `start` ends: a cut never moves it back by `Lookback` or more. */
  function WindowEnd(text: string, start: nat, chunkSize: int): (e: nat)
    requires start < |text| && Lookback <= chunkSize
    ensures start + chunkSize - Lookback < e <= start + chunkSize
    ensures e != start + chunkSize ==> start + 1 < e < |text|
  {
    var end := start + chunkSize;
    if end < |text| then CutEnd(text, start, Max(end - Lookback, start), end, SentenceEnds) else end
  }

  /** A window cut short ends just after the punctuation of a sentence break. */
  lemma WindowEndAtBreak(text: string, start: nat, chunkSize: int)
    requires start < |text| && Lookback <= chunkSize
    ensures var e := WindowEnd(text, start, chunkSize);
            e != start + chunkSize ==> exists k :: 0 <= k < |SentenceEnds| && MatchAt(text, SentenceEnds[k], e - 1)
  {
    var end := start + chunkSize;
    if WindowEnd(text, start, chunkSize) != end {
      assert end < |text|;
      assert WindowEnd(text, start, chunkSize) == CutEnd(text, start, Max(end - Lookback, start), end, SentenceEnds);
      CutEndAtBreak(text, start, Max(end - Lookback, start), end, SentenceEnds);
    }
  }

  /**
   A window that stops short of the end of the text is cut whenever a sentence break
   begins beyond its start and lies wholly inside its final `Lookback` characters.
   */
  lemma WindowCutWhenBreak(text: string, start: nat, chunkSize: int, k: int, p: int)
    requires start < |text| && Lookback <= chunkSize && start + chunkSize < |text|
    requires 0 <= k < |SentenceEnds| && MatchAt(text, SentenceEnds[k], p)
    requires start < p && start + chunkSize - Lookback <= p && p + 2 <= start + chunkSize
    ensures WindowEnd(text, start, chunkSize) < start + chunkSize
  {
    var end := start + chunkSize;
    assert |SentenceEnds[k]| == 2;
    assert AtLeastTwo(SentenceEnds);
    CutEndWhenBreak(text, start, Max(end - Lookback, start), end, SentenceEnds, k, p);
  }

  /**
   Only a window that stops short of the end of the text is cut, and then it ends at
   the last occurrence, beyond the window's start and inside its final `Lookback`
   characters, of the first pattern in list order that has such an occurrence.
   */
  lemma WindowCutIsLast(text: string, start: nat, chunkSize: int)
    requires start < |text| && Lookback <= chunkSize
    ensures var e, end := WindowEnd(text, start, chunkSize), start + chunkSize;
            var lo := Max(end - Lookback, start);
            e != end ==>
              end < |text| &&
              exists k0 :: 0 <= k0 < |SentenceEnds|
                && MatchAt(text, SentenceEnds[k0], e - 1) && lo <= e - 1 && e - 1 + |SentenceEnds[k0]| <= end
                && (forall q :: e - 1 < q && q + |SentenceEnds[k0]| <= end ==> !MatchAt(text, SentenceEnds[k0], q))
                && (forall j :: 0 <= j < k0 ==> NoBreakAfter(text, SentenceEnds[j], start, lo, end))
  {
    var end := start + chunkSize;
    if WindowEnd(text, start, chunkSize) != end {
      var lo := Max(end - Lookback, start);
      assert WindowEnd(text, start, chunkSize) == CutEnd(text, start, lo, end, SentenceEnds);
      CutEndAtBreak(text, start, lo, end, SentenceEnds);
    }
  }

  /** One turn of the loop: the window `text[start:end]`, before stripping. */
  datatype Window = Window(start: nat, end: nat)

  /**
   The windows the `while start < len(text)` loop visits from window start `start` on:
   there is one exactly when `start` is inside the text, and never more than the
   characters left, since every turn moves the start forward.
   */
  function WindowsFrom(text: string, start: nat, chunkSize: int, overlap: int): (ws: seq<Window>)
    requires ValidParams(chunkSize, overlap)
    ensures |ws| > 0 <==> start < |text|
    ensures |ws| > 0 ==> start + |ws| <= |text|
    decreases |text| - start
  {
    if start >= |text| then []
    else
      var end := WindowEnd(text, start, chunkSize);
      [Window(start, end)] + WindowsFrom(text, end - overlap, chunkSize, overlap)
  }

  /** Where `text[w.start:w.end]` ends once Python has clipped the bound to the text. */
  function SpanEnd(text: string, w: Window): (hi: nat)
    ensures hi <= |text|
  {
    Min(w.end, |text|)
  }

  /** Where `text[w.start:w.end]` begins once Python has clipped both bounds to the text. */
  function SpanStart(text: string, w: Window): (lo: nat)
    ensures lo <= SpanEnd(text, w)
  {
    Min(w.start, SpanEnd(text, w))
  }

  /** `text[w.start:w.end].strip()` */
  function Piece(text: string, w: Window): string {
    StripRange(text, SpanStart(text, w), SpanEnd(text, w))
  }

  /** `if len(chunk) >= MIN_CHUNK_SIZE: chunks.append(chunk)` */
  function Keep(chunk: string): seq<string> {
    if |chunk| >= MinChunkSize then [chunk] else []
  }

  /** The chunks kept from a list of windows: each window's text, stripped, unless it is too short; so at most one per window. */
  function Pieces(text: string, ws: seq<Window>): (r: seq<string>)
    ensures |r| <= |ws|
  {
    if |ws| == 0 then []
    else
      Keep(Piece(text, ws[0])) + Pieces(text, ws[1..])
  }

  /** Where, in the text, each kept chunk begins. */
  ghost function PieceStarts(text: string, ws: seq<Window>): seq<int> {
    if |ws| == 0 then []
    else
      var w := ws[0];
      (if |Piece(text, w)| >= MinChunkSize then [SkipSpaces(text, SpanStart(text, w), SpanEnd(text, w))] else [])
        + PieceStarts(text, ws[1..])
  }

  /** The windows of a cleaned, non-empty text. */
  function Windows(clean: string, chunkSize: int, overlap: int): seq<Window>
    requires ValidParams(chunkSize, overlap)
  {
    WindowsFrom(clean, 0, chunkSize, overlap)
  }

  /**
   `chunk_text(text, chunk_size, overlap)`: nothing for a text that strips to fewer
   than `MinChunkSize` characters, and never more chunks than the cleaned text has
   characters.
   */
  function Chunks(text: string, chunkSize: int, overlap: int): (r: seq<string>)
    requires ValidParams(chunkSize, overlap)
    ensures |Strip(text)| < MinChunkSize ==> r == []
  {
    if |text| == 0 || |Strip(text)| < MinChunkSize then []
    else Pieces(Clean(text), Windows(Clean(text), chunkSize, overlap))
  }

  /** Where, in the cleaned text, each chunk begins. */
  ghost function ChunkStarts(text: string, chunkSize: int, overlap: int): seq<int>
    requires ValidParams(chunkSize, overlap)
  {
    if |text| == 0 || |Strip(text)| < MinChunkSize then []
    else PieceStarts(Clean(text), Windows(Clean(text), chunkSize, overlap))
  }

  /** The shape of every emitted chunk. */
  predicate WellFormedChunk(c: string, chunkSize: int) {
    && MinChunkSize <= |c| <= chunkSize
    && Collapsed(c)
    && !IsSpace(c[0]) && !IsSpace(c[|c| - 1])
  }

  /** Unfolding one window. */
  lemma WindowsFromStep(text: string, start: nat, chunkSize: int, overlap: int)
    requires ValidParams(chunkSize, overlap) && start < |text|
    ensures var ws := WindowsFrom(text, start, chunkSize, overlap);
            && |ws| > 0 && ws[0] == Window(start, WindowEnd(text, start, chunkSize))
            && ws[1..] == WindowsFrom(text, NextStart(text, start, chunkSize, overlap), chunkSize, overlap)
  {
  }

  /**
   The chunks the `while start < len(text)` loop appends from window start `start`
   on, in the loop's own shape: strip `text[start:end]`, keep it if long enough,
   restart `overlap` characters before `end`.
   */
  function ChunksFrom(text: string, start: nat, chunkSize: int, overlap: int): seq<string>
    requires ValidParams(chunkSize, overlap)
    decreases |text| - start
  {
    if start >= |text| then []
    else
      var end := WindowEnd(text, start, chunkSize);
      Keep(StripRange(text, start, Min(end, |text|))) + ChunksFrom(text, end - overlap, chunkSize, overlap)
  }

  /** The loop's chunks are the pieces of the windows it visits. */
  lemma {:induction false} ChunksFromPieces(text: string, start: nat, chunkSize: int, overlap: int)
    requires ValidParams(chunkSize, overlap)
    ensures ChunksFrom(text, start, chunkSize, overlap) == Pieces(text, WindowsFrom(text, start, chunkSize, overlap))
    decreases |text| - start
  {
    if start < |text| {
      var ws := WindowsFrom(text, start, chunkSize, overlap);
      var next := NextStart(text, start, chunkSize, overlap);
      ChunksFromPieces(text, next, chunkSize, overlap);
      Heads(text, start, chunkSize, overlap);
      PiecesHead(text, ws);
    }
  }

  /**
   Where the loop restarts after the window at `start`: more than
   `chunkSize - overlap - Lookback` characters further on (over 300 with the
   defaults), so the loop ends.
   */
  function NextStart(text: string, start: nat, chunkSize: int, overlap: int): (next: nat)
    requires ValidParams(chunkSize, overlap) && start < |text|
    ensures start + chunkSize - overlap - Lookback < next
    ensures next > start
  {
    WindowEnd(text, start, chunkSize) - overlap
  }

  /** The first window and the first step of the loop, stated without the window's end. */
  lemma Heads(text: string, start: nat, chunkSize: int, overlap: int)
    requires ValidParams(chunkSize, overlap) && start < |text|
    ensures var ws := WindowsFrom(text, start, chunkSize, overlap);
            var next := NextStart(text, start, chunkSize, overlap);
            && |ws| > 0 && ws[0].start == start <= ws[0].end
            && ws[1..] == WindowsFrom(text, next, chunkSize, overlap)
            && ChunksFrom(text, start, chunkSize, overlap)
                 == Keep(StripRange(text, start, Min(ws[0].end, |text|))) + ChunksFrom(text, next, chunkSize, overlap)
  {
    WindowsFromStep(text, start, chunkSize, overlap);
    ChunksHead(text, start, chunkSize, overlap);
  }

  /** Unfolding one turn of the loop. */
  lemma ChunksHead(text: string, start: nat, chunkSize: int, overlap: int)
    requires ValidParams(chunkSize, overlap) && start < |text|
    ensures ChunksFrom(text, start, chunkSize, overlap)
              == Keep(StripRange(text, start, Min(WindowEnd(text, start, chunkSize), |text|)))
                 + ChunksFrom(text, NextStart(text, start, chunkSize, overlap), chunkSize, overlap)
  {
  }

  /** The pieces of windows: the first window, inside the text, is stripped as it stands. */
  lemma PiecesHead(text: string, ws: seq<Window>)
    requires |ws| > 0 && ws[0].start <= ws[0].end && ws[0].start < |text|
    ensures Pieces(text, ws) == Keep(StripRange(text, ws[0].start, Min(ws[0].end, |text|))) + Pieces(text, ws[1..])
  {
  }

  /** One turn of the loop keeps its invariant: the chunks so far, then those still to come, are all the chunks. */
  lemma LoopStep(text: string, start: nat, end: nat, chunkSize: int, overlap: int,
                 chunk: string, before: seq<string>, after: seq<string>, all: seq<string>)
    requires ValidParams(chunkSize, overlap) && start < |text|
    requires end == WindowEnd(text, start, chunkSize)
    requires chunk == StripRange(text, start, Min(end, |text|))
    requires after == if |chunk| >= MinChunkSize then before + [chunk] else before
    requires before + ChunksFrom(text, start, chunkSize, overlap) == all
    ensures after + ChunksFrom(text, end - overlap, chunkSize, overlap) == all
  {
    ChunksHead(text, start, chunkSize, overlap);
    KeepThenRest(before, chunk, ChunksFrom(text, end - overlap, chunkSize, overlap), all);
  }

  /** Appending a kept chunk, or nothing, to the chunks so far. */
  lemma KeepThenRest(before: seq<string>, chunk: string, rest: seq<string>, all: seq<string>)
    requires before + (Keep(chunk) + rest) == all
    ensures |chunk| >= MinChunkSize ==> (before + [chunk]) + rest == all
    ensures |chunk| < MinChunkSize ==> before + rest == all
  {
    if |chunk| >= MinChunkSize {
      assert before + ([chunk] + rest) == (before + [chunk]) + rest;
    } else {
      assert Keep(chunk) + rest == rest;
    }
  }

  /** The `for punct in [...]` loop: where the window starting at `start` ends. */
  method FindWindowEnd(text: string, start: nat, chunkSize: int) returns (end: nat)
    requires start < |text| && Lookback <= chunkSize
    ensures end == WindowEnd(text, start, chunkSize)
  {
    end := start + chunkSize;
    if end < |text| {
      var searchStart := Max(end - Lookback, start);
      var j := 0;
      while j < |SentenceEnds|
        invariant 0 <= j <= |SentenceEnds|
        invariant end == start + chunkSize
        invariant CutEnd(text, start, searchStart, end, SentenceEnds[j..]) == WindowEnd(text, start, chunkSize)
      {
        var lastPeriod := RFind(text, SentenceEnds[j], searchStart, end);
        if lastPeriod > start {
          end := lastPeriod + 1;
          return;
        }
        j := j + 1;
      }
    }
  }

  /** `chunk_text(text, chunk_size, overlap)`: the early exit for short texts, then the cleaning and the loop. */
  method ChunkText(text: string, chunkSize: int, overlap: int) returns (chunks: seq<string>)
    requires ValidParams(chunkSize, overlap)
    ensures chunks == Chunks(text, chunkSize, overlap)
    ensures text == [] || |Strip(text)| < MinChunkSize ==> chunks == []
    ensures forall c :: c in chunks ==> WellFormedChunk(c, chunkSize)
  {
    if |text| == 0 || |Strip(text)| < MinChunkSize {
      return [];
    }
    var clean := Clean(text);
    chunks := SlideWindows(clean, chunkSize, overlap);
    ChunksFromPieces(clean, 0, chunkSize, overlap);
    ChunksWellFormed(text, chunkSize, overlap);
  }

  /** The `while start < len(text)` loop of `chunk_text`, over the cleaned text. */
  method SlideWindows(clean: string, chunkSize: int, overlap: int) returns (chunks: seq<string>)
    requires ValidParams(chunkSize, overlap)
    ensures chunks == ChunksFrom(clean, 0, chunkSize, overlap)
  {
    chunks := [];
    var start: nat := 0;
    ghost var all := ChunksFrom(clean, 0, chunkSize, overlap);
    AppendEmpty(all);
    while start < |clean|
      invariant chunks + ChunksFrom(clean, start, chunkSize, overlap) == all
      decreases |clean| - start
    {
      var end := FindWindowEnd(clean, start, chunkSize);
      var chunk := StripRange(clean, start, Min(end, |clean|));
      ghost var before := chunks;
      if |chunk| >= MinChunkSize {
        chunks := chunks + [chunk];
      }
      LoopStep(clean, start, end, chunkSize, overlap, chunk, before, chunks, all);
      start := end - overlap;
      if start >= |clean| {
        break;
      }
    }
    AppendEmpty(chunks);
  }

  /** Appending nothing changes nothing: the loop's invariant at its entry and at its exit. */
  lemma AppendEmpty<T>(s: seq<T>)
    ensures [] + s == s && s + [] == s
  {
  }

  /**
   The shape of the `k`-th window: it starts inside the text, is cut back by less
   than `Lookback`, and the next window starts `overlap` characters before it
   ends; after the last window the loop's next start is past the end of the text.
   */
  lemma {:induction false} WindowShape(text: string, start: nat, chunkSize: int, overlap: int, k: nat)
    requires ValidParams(chunkSize, overlap)
    requires k < |WindowsFrom(text, start, chunkSize, overlap)|
    ensures var ws := WindowsFrom(text, start, chunkSize, overlap);
            && start <= ws[k].start < |text|
            && ws[k].start + chunkSize - Lookback < ws[k].end <= ws[k].start + chunkSize
            && (k + 1 < |ws| ==> ws[k + 1].start == ws[k].end - overlap)
            && (k + 1 == |ws| ==> ws[k].end - overlap >= |text|)
    decreases |text| - start
  {
    WindowsFromStep(text, start, chunkSize, overlap);
    if k > 0 {
      var end := WindowEnd(text, start, chunkSize);
      WindowShape(text, end - overlap, chunkSize, overlap, k - 1);
    }
  }

  /**
   Window starts grow from one window to the next, by more than one character when
   the overlap leaves more than `Lookback` characters of fresh text per window.
   */
  lemma {:induction false} WindowStartsGrow(text: string, start: nat, chunkSize: int, overlap: int, i: nat, j: nat)
    requires ValidParams(chunkSize, overlap)
    requires i < j < |WindowsFrom(text, start, chunkSize, overlap)|
    ensures var ws := WindowsFrom(text, start, chunkSize, overlap);
            && ws[i].start < ws[j].start
            && (overlap + Lookback < chunkSize ==> ws[i].start + 1 < ws[j].start)
    decreases j
  {
    WindowShape(text, start, chunkSize, overlap, j - 1);
    if i < j - 1 {
      WindowStartsGrow(text, start, chunkSize, overlap, i, j - 1);
    }
  }

  /** Each window starts no later than the previous one ended. */
  predicate Chained(ws: seq<Window>) {
    forall i, j :: 0 <= i < |ws| - 1 && j == i + 1 ==> ws[j].start <= ws[i].end
  }

  /** Chained windows cover every position from the first start to the last end. */
  lemma {:induction false} ChainedCover(ws: seq<Window>, p: int)
    requires |ws| > 0 && Chained(ws)
    requires ws[0].start <= p < ws[|ws| - 1].end
    ensures exists k :: 0 <= k < |ws| && ws[k].start <= p < ws[k].end
  {
    if p >= ws[0].end {
      var rest := ws[1..];
      assert Chained(rest) by {
        forall i, j | 0 <= i < |rest| - 1 && j == i + 1
          ensures rest[j].start <= rest[i].end
        {
          assert rest[j] == ws[j + 1] && rest[i] == ws[i + 1];
        }
      }
      assert ws[1].start <= ws[0].end;
      ChainedCover(rest, p);
      var k :| 0 <= k < |rest| && rest[k].start <= p < rest[k].end;
      assert ws[k + 1] == rest[k];
    }
  }

  /** The windows cover every character of the text: the loop skips nothing. */
  lemma WindowsCover(text: string, chunkSize: int, overlap: int, p: nat)
    requires ValidParams(chunkSize, overlap)
    requires p < |text|
    ensures var ws := Windows(text, chunkSize, overlap);
            exists k :: 0 <= k < |ws| && ws[k].start <= p < ws[k].end
  {
    var ws := Windows(text, chunkSize, overlap);
    WindowsFromStep(text, 0, chunkSize, overlap);
    forall i, j | 0 <= i < |ws| - 1 && j == i + 1
      ensures ws[j].start <= ws[i].end
    {
      WindowShape(text, 0, chunkSize, overlap, i);
    }
    WindowShape(text, 0, chunkSize, overlap, |ws| - 1);
    ChainedCover(ws, p);
  }

  /** A window inside the text: its span is exactly `text[w.start:min(w.end, len(text))]`. */
  predicate Proper(text: string, w: Window) {
    w.start < |text| && w.start < w.end
  }

  lemma {:induction false} PiecesLength(text: string, ws: seq<Window>)
    ensures |PieceStarts(text, ws)| == |Pieces(text, ws)|
  {
    if |ws| > 0 {
      PiecesLength(text, ws[1..]);
    }
  }

  /** Stripping a range of `text` leaves a piece of `text`, found just after the removed whitespace. */
  lemma StrippedRangeAt(text: string, lo: nat, hi: nat)
    requires lo <= hi <= |text|
    ensures MatchAt(text, StripRange(text, lo, hi), SkipSpaces(text, lo, hi))
  {
    StripRangeSlice(text, lo, hi);
    MatchAtSlice(text, StripRange(text, lo, hi), SkipSpaces(text, lo, hi));
  }

  /** The `k`-th kept chunk occurs in the text at its recorded start. */
  lemma {:induction false} PieceIsSlice(text: string, ws: seq<Window>, k: nat)
    requires k < |Pieces(text, ws)|
    ensures k < |PieceStarts(text, ws)|
    ensures MatchAt(text, Pieces(text, ws)[k], PieceStarts(text, ws)[k])
  {
    PiecesLength(text, ws);
    var kept := |Piece(text, ws[0])| >= MinChunkSize;
    if kept && k == 0 {
      StrippedRangeAt(text, SpanStart(text, ws[0]), SpanEnd(text, ws[0]));
    } else {
      var j := if kept then k - 1 else k;
      PieceIsSlice(text, ws[1..], j);
      assert Pieces(text, ws)[k] == Pieces(text, ws[1..])[j];
      assert PieceStarts(text, ws)[k] == PieceStarts(text, ws[1..])[j];
    }
  }

  /** Every kept chunk starts at or after the start of the first window, when all windows are proper. */
  lemma {:induction false} PieceStartsAfter(text: string, ws: seq<Window>, lo: int, k: nat)
    requires forall i :: 0 <= i < |ws| ==> Proper(text, ws[i]) && lo <= ws[i].start
    requires k < |PieceStarts(text, ws)|
    ensures lo <= PieceStarts(text, ws)[k]
  {
    var kept := |Piece(text, ws[0])| >= MinChunkSize;
    if !(kept && k == 0) {
      PieceStartsAfter(text, ws[1..], lo, if kept then k - 1 else k);
    }
  }

  /** Windows whose starts are more than one character apart. */
  predicate Spaced(ws: seq<Window>) {
    forall i, j :: 0 <= i < j < |ws| ==> ws[i].start + 1 < ws[j].start
  }

  /**
   Over a collapsed text, stripping removes at most one leading character, so the
   kept chunks of spaced, proper windows start at strictly increasing positions.
   */
  lemma {:induction false} PieceStartsIncrease(text: string, ws: seq<Window>, k: nat)
    requires Collapsed(text) && Spaced(ws)
    requires forall i :: 0 <= i < |ws| ==> Proper(text, ws[i])
    requires k + 1 < |PieceStarts(text, ws)|
    ensures PieceStarts(text, ws)[k] < PieceStarts(text, ws)[k + 1]
  {
    var kept := |Piece(text, ws[0])| >= MinChunkSize;
    var rest := ws[1..];
    assert Spaced(rest) by {
      forall i, j | 0 <= i < j < |rest|
        ensures rest[i].start + 1 < rest[j].start
      {
        assert rest[i] == ws[i + 1] && rest[j] == ws[j + 1];
      }
    }
    if kept && k == 0 {
      StripRangeCollapsed(text, SpanStart(text, ws[0]), SpanEnd(text, ws[0]));
      assert forall i :: 0 <= i < |rest| ==> Proper(text, rest[i]) && ws[0].start + 2 <= rest[i].start by {
        forall i | 0 <= i < |rest|
          ensures Proper(text, rest[i]) && ws[0].start + 2 <= rest[i].start
        {
          assert rest[i] == ws[i + 1];
        }
      }
      PieceStartsAfter(text, rest, ws[0].start + 2, 0);
    } else {
      var j := if kept then k - 1 else k;
      PieceStartsIncrease(text, rest, j);
      assert PieceStarts(text, ws)[k] == PieceStarts(text, rest)[j];
      assert PieceStarts(text, ws)[k + 1] == PieceStarts(text, rest)[j + 1];
    }
  }

  lemma {:induction false} PiecesWellFormed(text: string, ws: seq<Window>, chunkSize: int)
    requires Collapsed(text)
    requires forall i :: 0 <= i < |ws| ==> ws[i].end <= ws[i].start + chunkSize
    ensures forall c :: c in Pieces(text, ws) ==> WellFormedChunk(c, chunkSize)
  {
    if |ws| > 0 {
      StripRangeCollapsed(text, SpanStart(text, ws[0]), SpanEnd(text, ws[0]));
      StripRangeEnds(text, SpanStart(text, ws[0]), SpanEnd(text, ws[0]));
      PiecesWellFormed(text, ws[1..], chunkSize);
    }
  }

  /**
   Every chunk is between `MinChunkSize` and `chunkSize` characters long, holds no
   newline and no two whitespace characters in a row, and neither starts nor ends
   with whitespace.
   */
  lemma ChunksWellFormed(text: string, chunkSize: int, overlap: int)
    requires ValidParams(chunkSize, overlap)
    ensures forall c :: c in Chunks(text, chunkSize, overlap) ==> WellFormedChunk(c, chunkSize) && '\n' !in c
  {
    if !(|text| == 0 || |Strip(text)| < MinChunkSize) {
      var clean := Clean(text);
      var ws := Windows(clean, chunkSize, overlap);
      forall i | 0 <= i < |ws|
        ensures ws[i].end <= ws[i].start + chunkSize
      {
        WindowShape(clean, 0, chunkSize, overlap, i);
      }
      PiecesWellFormed(clean, ws, chunkSize);
    }
    forall c | c in Chunks(text, chunkSize, overlap)
      ensures '\n' !in c
    {
      if '\n' in c {
        var i :| 0 <= i < |c| && c[i] == '\n';
        assert IsSpace(c[i]);
      }
    }
  }

  /**
   Every chunk is a contiguous piece of the cleaned text, and the pieces start at
   strictly increasing positions whenever the overlap leaves more than `Lookback`
   characters of fresh text per window (as the defaults do).
   */
  lemma ChunksAreOrderedSlices(text: string, chunkSize: int, overlap: int)
    requires ValidParams(chunkSize, overlap)
    ensures var chunks := Chunks(text, chunkSize, overlap);
            var starts := ChunkStarts(text, chunkSize, overlap);
            && |starts| == |chunks|
            && (forall k :: 0 <= k < |chunks| ==> MatchAt(Clean(text), chunks[k], starts[k]))
            && (overlap + Lookback < chunkSize ==> forall k :: 0 <= k < |starts| - 1 ==> starts[k] < starts[k + 1])
  {
    if !(|text| == 0 || |Strip(text)| < MinChunkSize) {
      var clean := Clean(text);
      var ws := Windows(clean, chunkSize, overlap);
      PiecesLength(clean, ws);
      forall k | 0 <= k < |Pieces(clean, ws)|
        ensures MatchAt(clean, Pieces(clean, ws)[k], PieceStarts(clean, ws)[k])
      {
        PieceIsSlice(clean, ws, k);
      }
      if overlap + Lookback < chunkSize {
        forall i | 0 <= i < |ws|
          ensures Proper(clean, ws[i])
        {
          WindowShape(clean, 0, chunkSize, overlap, i);
        }
        forall i, j | 0 <= i < j < |ws|
          ensures ws[i].start + 1 < ws[j].start
        {
          WindowStartsGrow(clean, 0, chunkSize, overlap, i, j);
        }
        forall k | 0 <= k < |PieceStarts(clean, ws)| - 1
          ensures PieceStarts(clean, ws)[k] < PieceStarts(clean, ws)[k + 1]
        {
          PieceStartsIncrease(clean, ws, k);
        }
      }
    }
  }

  /** The patterns ".\n" and "!\n" end in a newline. */
  lemma NewlineBreak(text: string, k: nat, i: int)
    requires k == 1 || k == 3
    ensures MatchAt(text, SentenceEnds[k], i) ==> text[i + 1] == '\n'
  {
    if MatchAt(text, SentenceEnds[k], i) {
      assert text[i + 1] == SentenceEnds[k][1];
    }
  }

  /** Once the whitespace is collapsed, the patterns ".\n" and "!\n" can never be found. */
  lemma NewlineBreaksNeverMatch(text: string, lo: nat, hi: nat)
    requires Collapsed(text) && lo <= hi <= |text|
    ensures RFind(text, SentenceEnds[1], lo, hi) == -1
    ensures RFind(text, SentenceEnds[3], lo, hi) == -1
  {
    RFindSpec(text, SentenceEnds[1], lo, hi);
    NewlineBreak(text, 1, RFind(text, SentenceEnds[1], lo, hi));
    RFindSpec(text, SentenceEnds[3], lo, hi);
    NewlineBreak(text, 3, RFind(text, SentenceEnds[3], lo, hi));
  }

  /**
   In the cleaned text, a window cut at a sentence break ends with "." or "?",
   followed in the text by a space: only ". " and "? " are effective patterns.
   */
  lemma SentenceCutEndsChunk(text: string, start: nat, chunkSize: int)
    requires Collapsed(text) && start < |text| && Lookback <= chunkSize
    requires WindowEnd(text, start, chunkSize) != start + chunkSize
    ensures var e := WindowEnd(text, start, chunkSize);
            var chunk := StripRange(text, start, e);
            e < |text| && text[e] == ' ' &&
            chunk != [] && (chunk[|chunk| - 1] == '.' || chunk[|chunk| - 1] == '?')
  {
    WindowEndAtBreak(text, start, chunkSize);
    BreakEndsChunk(text, start, WindowEnd(text, start, chunkSize));
  }

  /** A piece of a cleaned text that ends just after a sentence break ends in "." or "?", and a space follows it. */
  lemma BreakEndsChunk(text: string, start: nat, e: nat)
    requires Collapsed(text) && start < e <= |text|
    requires exists k :: 0 <= k < |SentenceEnds| && MatchAt(text, SentenceEnds[k], e - 1)
    ensures var chunk := StripRange(text, start, e);
            e < |text| && text[e] == ' ' &&
            chunk != [] && (chunk[|chunk| - 1] == '.' || chunk[|chunk| - 1] == '?')
  {
    var k :| 0 <= k < |SentenceEnds| && MatchAt(text, SentenceEnds[k], e - 1);
    SentenceEndAt(text, k, e - 1);
    StripRangeKeepsLast(text, start, e);
  }

  /** Without "." or "?" in a cleaned text, no window is ever cut short. */
  lemma NoBreakNoCut(text: string, start: nat, chunkSize: int)
    requires Collapsed(text) && start < |text| && Lookback <= chunkSize
    requires forall i :: 0 <= i < |text| ==> text[i] != '.' && text[i] != '?'
    ensures WindowEnd(text, start, chunkSize) == start + chunkSize
  {
    var e := WindowEnd(text, start, chunkSize);
    WindowEndAtBreak(text, start, chunkSize);
    forall k | 0 <= k < |SentenceEnds|
      ensures !MatchAt(text, SentenceEnds[k], e - 1)
    {
      SentenceEndAt(text, k, e - 1);
    }
  }

  /** The three windows [0, 500), [400, 900) and [800, 1300) of a 1200-character text without cuts. */
  lemma WindowsOf1200(text: string)
    requires |text| == 1200 && Collapsed(text)
    requires forall i :: 0 <= i < |text| ==> text[i] != '.' && text[i] != '?'
    ensures Windows(text, ChunkSize, ChunkOverlap) == [Window(0, 500), Window(400, 900), Window(800, 1300)]
  {
    NoBreakNoCut(text, 0, ChunkSize);
    NoBreakNoCut(text, 400, ChunkSize);
    NoBreakNoCut(text, 800, ChunkSize);
    var ws := [Window(0, 500), Window(400, 900), Window(800, 1300)];
    assert WindowsFrom(text, 1200, ChunkSize, ChunkOverlap) == [];
    assert WindowsFrom(text, 800, ChunkSize, ChunkOverlap) == ws[2..];
    assert WindowsFrom(text, 400, ChunkSize, ChunkOverlap) == ws[1..];
  }

  /**
   A clean 1200-character text without sentence punctuation gives three chunks
   with the default parameters: `text[0:500]`, `text[400:900]` and `text[800:1300]`,
   each stripped.
   */
  lemma ThreeChunksOf1200(text: string)
    requires |text| == 1200 && Collapsed(text) && !IsSpace(text[0]) && !IsSpace(text[1199])
    requires forall i :: 0 <= i < |text| ==> text[i] != '.' && text[i] != '?'
    ensures Chunks(text, ChunkSize, ChunkOverlap)
              == [StripRange(text, 0, 500), StripRange(text, 400, 900), StripRange(text, 800, 1200)]
  {
    CollapseOfCollapsed(text);
    StripOfTrimmed(text);
    assert Clean(text) == text;
    WindowsOf1200(text);
    var ws := [Window(0, 500), Window(400, 900), Window(800, 1300)];
    StripRangeCollapsed(text, 0, 500);
    StripRangeCollapsed(text, 400, 900);
    StripRangeCollapsed(text, 800, 1200);
    assert Pieces(text, ws[2..]) == [StripRange(text, 800, 1200)];
    assert Pieces(text, ws[1..]) == [StripRange(text, 400, 900), StripRange(text, 800, 1200)];
  }

}
