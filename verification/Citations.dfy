/** What a chunk's cited span holds, and exactly when it is the chunk's text. */
module Citations {
  import opened Text
  import opened Blocks
  import opened Splitting
  import opened Chunking

  // ----- joined blocks against the span they cover -------------------------

  predicate NonBlank(bs: seq<TextBlock>) {
    forall i :: 0 <= i < |bs| ==> !Blank(bs[i].text)
  }

  predicate TwoNewlines(doc: string, lo: nat, hi: nat) {
    lo <= hi <= |doc| && doc[lo..hi] == "\n\n"
  }

  /** Every two consecutive blocks lie exactly two newlines apart in the document. */
  predicate Separated(w: seq<TextBlock>, doc: string) {
    forall i :: 0 < i < |w| ==> TwoNewlines(doc, w[i - 1].charEnd, w[i].charStart)
  }

  /** The last non-blank character fixes where a text ends and the gap after it begins. */
  lemma {:induction false} SameGap(x: string, y: string, u: string, g: string, h: string)
    requires !Blank(u) && Blank(g) && Blank(h)
    ensures x + u + g == y + u + h <==> x == y && g == h
  {
    if x + u + g == y + u + h {
      RStripConcat(x, u);
      RStripConcat(y, u);
      RStripBlankTail(x + u, g);
      RStripBlankTail(y + u, h);
      assert |x| == |y|;
      SameHead(x + u, y + u, g, h);
      SameHead(x, y, u, u);
    }
  }

  lemma {:induction false} TakeOf(x: string, u: string)
    ensures (x + u)[..|x|] == x && (x + u)[|x|..] == u
  {
  }

  lemma {:induction false} SameHead(x: string, y: string, g: string, h: string)
    requires |x| == |y| && x + g == y + h
    ensures x == y && g == h
  {
    TakeOf(x, g);
    TakeOf(y, h);
  }

  lemma {:induction false} SameTail(x: string, y: string, t: string)
    ensures x + t == y + t <==> x == y
  {
    if x + t == y + t {
      SameHead(x, y, t, t);
    }
  }

  /** The joined text ends with the last block's text. */
  function JoinedBefore(w: seq<TextBlock>): string
    requires w != []
  {
    if |w| == 1 then "" else Joined(w[..|w| - 1]) + "\n\n"
  }

  lemma {:induction false} JoinedSplits(w: seq<TextBlock>)
    requires w != []
    ensures Joined(w) == JoinedBefore(w) + w[|w| - 1].text
  {
    var n := |w| - 1;
    if n == 0 {
      assert Texts(w) == [w[0].text];
    } else {
      assert w == w[..n] + [w[n]];
      JoinedSnoc(w[..n], w[n]);
    }
  }

  /** The cited span: from the first block's start to the last block's end. */
  function Span(w: seq<TextBlock>, doc: string): string
    requires w != [] && w[0].charStart <= w[|w| - 1].charEnd <= |doc|
  {
    doc[w[0].charStart..w[|w| - 1].charEnd]
  }

  /**
   * Ordered, non-blank blocks joined by two newlines are the document's own text from the first to the last
   * if and only if the document separates them all by exactly two newlines.
   */
  lemma {:induction false} JoinedIsSpanExactlyWhen(w: seq<TextBlock>, doc: string, hi: nat)
    requires w != [] && NonBlank(w) && Tiles(w, doc, 0, w[0].charStart, hi)
    ensures w[0].charStart <= w[|w| - 1].charEnd <= |doc|
    ensures Joined(w) == Span(w, doc) <==> Separated(w, doc)
  {
    var n := |w| - 1;
    JoinedSplits(w);
    if n > 0 {
      var init, e, s := w[..n], w[n - 1].charEnd, w[n].charStart;
      JoinedIsSpanExactlyWhen(init, doc, s);
      ThreeSlices(doc, w[0].charStart, e, s, w[n].charEnd);
      SeparatedSnoc(w, doc);
      SpanGrows(init, w[n].text, doc, s);
    }
  }

  lemma {:induction false} SeparatedSnoc(w: seq<TextBlock>, doc: string)
    requires |w| > 1
    ensures var n := |w| - 1;
            Separated(w, doc) <==> Separated(w[..n], doc) && TwoNewlines(doc, w[n - 1].charEnd, w[n].charStart)
  {
    var n := |w| - 1;
    assert forall i :: 0 <= i < n ==> w[..n][i] == w[i];
  }

  /** One more block keeps the joined text exact if and only if the gap before it is two newlines. */
  lemma {:induction false} SpanGrows(init: seq<TextBlock>, t: string, doc: string, s: nat)
    requires init != [] && NonBlank(init) && Tiles(init, doc, 0, init[0].charStart, s)
    requires init[0].charStart <= init[|init| - 1].charEnd <= s <= |doc|
    ensures Joined(init) + "\n\n" + t == Span(init, doc) + doc[init[|init| - 1].charEnd..s] + t
            <==> Joined(init) == Span(init, doc) && TwoNewlines(doc, init[|init| - 1].charEnd, s)
  {
    var last := init[|init| - 1];
    var gap := doc[last.charEnd..s];
    JoinedSplits(init);
    SpanSplits(init, doc, s);
    SameTail(Joined(init) + "\n\n", Span(init, doc) + gap, t);
    SameGap(JoinedBefore(init), doc[init[0].charStart..last.charStart], last.text, "\n\n", gap);
    SameTail(JoinedBefore(init), doc[init[0].charStart..last.charStart], last.text);
  }

  lemma {:induction false} SpanSplits(w: seq<TextBlock>, doc: string, hi: nat)
    requires w != [] && Tiles(w, doc, 0, w[0].charStart, hi) && w[0].charStart <= w[|w| - 1].charEnd <= |doc|
    ensures var last := w[|w| - 1];
            w[0].charStart <= last.charStart <= last.charEnd
            && Span(w, doc) == doc[w[0].charStart..last.charStart] + last.text
  {
  }

  // ----- chunks ------------------------------------------------------------

  /** The normalized blocks that chunk `i` is made of, carried-over ones first. */
  function BlocksOfChunk(blocks: seq<TextBlock>, target: int, overlapRatio: real, i: nat): seq<TextBlock>
    requires target > 0 && 0.0 <= overlapRatio < 1.0
  {
    var bs := Normalized(blocks, target);
    var ws := Windows(bs, target, OverlapChars(target, overlapRatio));
    if i < |ws| && InBounds(bs, ws[i]) then bs[ws[i].lo..ws[i].hi] else []
  }

  lemma {:induction false} NormalizedNonBlank(bs: seq<TextBlock>, n: nat, target: nat)
    requires n <= |bs| && target > 0 && NonBlank(bs)
    ensures NonBlank(NormalizedUpTo(bs, n, target))
  {
    if n > 0 {
      NormalizedNonBlank(bs, n - 1, target);
      NormalizedBlockNonBlank(bs[n - 1], target);
    }
  }

  lemma {:induction false} NormalizedBlockNonBlank(b: TextBlock, target: nat)
    requires target > 0 && !Blank(b.text)
    ensures NonBlank(NormalizedBlock(b, target))
  {
    SplitParts(b, 0, target, []);
    forall i | 0 <= i < |Split(b, target)| ensures !Blank(Split(b, target)[i].text) {
      assert Split(b, target)[i] in Split(b, target);
    }
  }

  /**
   * The citation law: over ordered, non-blank blocks, split or not, a chunk's text is exactly the span it cites
   * if and only if the document separates the chunk's blocks by exactly two newlines.
   */
  lemma {:induction false} ChunkCitesExactlyWhen(
    blocks: seq<TextBlock>, target: int, overlapRatio: real, doc: string, lo: nat, hi: nat, i: nat)
    requires target > 0 && 0.0 <= overlapRatio < 1.0 && NonBlank(blocks) && Tiles(blocks, doc, 0, lo, hi)
    requires i < |ChunkingOf(blocks, target, overlapRatio).specs|
    ensures var c := ChunkingOf(blocks, target, overlapRatio).specs[i];
            && c.charStart <= c.charEnd <= |doc|
            && (c.text == doc[c.charStart..c.charEnd]
                <==> Separated(BlocksOfChunk(blocks, target, overlapRatio, i), doc))
  {
    var bs, overlap, ws := ChunkingWindows(blocks, target, overlapRatio);
    assert blocks[..|blocks|] == blocks;
    NormalizedTiles(blocks, |blocks|, target, doc, lo, hi);
    NormalizedNonBlank(blocks, |blocks|, target);
    WindowCitesExactlyWhen(bs, ws[i], i, doc, lo, hi);
  }

  lemma {:induction false} WindowCitesExactlyWhen(
    bs: seq<TextBlock>, w: Window, ordinal: nat, doc: string, lo: nat, hi: nat)
    requires InBounds(bs, w) && NonBlank(bs) && Tiles(bs, doc, 0, lo, hi)
    ensures var c := SpecOf(bs, w, ordinal);
            && c.charStart <= c.charEnd <= |doc|
            && (c.text == doc[c.charStart..c.charEnd] <==> Separated(bs[w.lo..w.hi], doc))
  {
    var e := TilesBetween(bs, doc, 0, lo, hi, w.lo, w.hi);
    SpecCitesExactlyWhen(bs[w.lo..w.hi], ordinal, doc, e);
  }

  lemma {:induction false} SpecCitesExactlyWhen(w: seq<TextBlock>, ordinal: nat, doc: string, hi: nat)
    requires w != [] && NonBlank(w) && Tiles(w, doc, 0, w[0].charStart, hi)
    ensures var c := BuildChunkSpec(w, ordinal);
            && c.charStart <= c.charEnd <= |doc|
            && (c.text == doc[c.charStart..c.charEnd] <==> Separated(w, doc))
  {
    JoinedIsSpanExactlyWhen(w, doc, hi);
  }

  /** When no block is oversized and the parser left two newlines between blocks, every citation is exact. */
  lemma {:induction false} ChunksCiteExactly(blocks: seq<TextBlock>, target: int, overlapRatio: real, doc: string, i: nat)
    requires target > 0 && 0.0 <= overlapRatio < 1.0
    requires Aligned(blocks, doc) && forall b <- blocks :: |b.text| <= target
    requires i < |ChunkingOf(blocks, target, overlapRatio).specs|
    ensures var c := ChunkingOf(blocks, target, overlapRatio).specs[i];
            c.charStart <= c.charEnd <= |doc| && c.text == doc[c.charStart..c.charEnd]
  {
    var bs, overlap, ws := ChunkingWindows(blocks, target, overlapRatio);
    NormalizedSame(blocks, |blocks|, target);
    assert blocks[..|blocks|] == blocks;
    SpecCitesExactly(bs, ws[i], i, doc);
  }

  lemma {:induction false} SpecCitesExactly(bs: seq<TextBlock>, w: Window, ordinal: nat, doc: string)
    requires InBounds(bs, w) && Aligned(bs, doc)
    ensures var c := SpecOf(bs, w, ordinal);
            c.charStart <= c.charEnd <= |doc| && c.text == doc[c.charStart..c.charEnd]
  {
    AlignedWindow(bs, doc, w.lo, w.hi);
  }

  /** For every input whose blocks tile the document, split or not, citations are exact up to whitespace. */
  lemma {:induction false} ChunksCiteInk(blocks: seq<TextBlock>, target: int, overlapRatio: real, doc: string, lo: nat, hi: nat, i: nat)
    requires target > 0 && 0.0 <= overlapRatio < 1.0 && Tiles(blocks, doc, 0, lo, hi)
    requires i < |ChunkingOf(blocks, target, overlapRatio).specs|
    ensures var c := ChunkingOf(blocks, target, overlapRatio).specs[i];
            c.charStart <= c.charEnd <= |doc| && Ink(c.text) == Ink(doc[c.charStart..c.charEnd])
  {
    var bs, overlap, ws := ChunkingWindows(blocks, target, overlapRatio);
    assert blocks[..|blocks|] == blocks;
    NormalizedTiles(blocks, |blocks|, target, doc, lo, hi);
    TilesWindow(bs, doc, 0, lo, hi, ws[i].lo, ws[i].hi);
  }

  // ----- texts that are not cited exactly ----------------------------------

  lemma {:induction false} FillsAll(bs: seq<TextBlock>, k: nat, target: nat)
    requires k <= |bs| && Offset(bs, |bs|) <= target
    ensures Fill(bs, 0, k, target) == |bs|
    decreases |bs| - k
  {
    if k < |bs| {
      OffsetMonotone(bs, k + 1, |bs|);
      FillsAll(bs, k + 1, target);
    }
  }

  /** Blocks that fit the target together become one chunk, for every overlap. */
  lemma {:induction false} OneChunk(blocks: seq<TextBlock>, target: int, overlapRatio: real)
    requires target > 0 && 0.0 <= overlapRatio < 1.0
    requires Normalized(blocks, target) != [] && TotalLength(Normalized(blocks, target)) <= target
    ensures ChunkingOf(blocks, target, overlapRatio) == Chunks([BuildChunkSpec(Normalized(blocks, target), 0)])
  {
    var bs, overlap := Normalized(blocks, target), OverlapChars(target, overlapRatio);
    FillsAll(bs, 0, target);
    assert bs[0..|bs|] == bs;
    var one := [SpecOf(bs, Window(0, 0, |bs|), 0)];
    assert ChunksFrom(bs, |bs|, |bs|, target, overlap, one) == one;
    assert [] + one == one;
  }

  /** The last cut of a split. */
  lemma {:induction false} SplitEnds(b: TextBlock, pos: nat, target: nat, parts: seq<TextBlock>)
    requires pos < |b.text| <= pos + target && !Blank(b.text[pos..|b.text|])
    ensures SplitFrom(b, pos, target, parts) == parts + [Part(b, pos, |b.text|)]
  {
    var n := |b.text|;
    assert CutEnd(b.text, pos, target) == n && SkipSpaces(b.text, n) == n;
  }

  lemma {:induction false} CutAtSpace(text: string, n: nat, target: nat)
    requires 0 < n < target < |text| && text[n] == ' ' && forall i :: n < i < |text| ==> text[i] != ' '
    ensures CutEnd(text, 0, target) == n && SkipSpaces(text, n) == n + 1
  {
    FindsSpace(text, n, target);
    assert SkipSpaces(text, n + 1) == n + 1;
  }

  /** A text one character over the target, cut at its last space. */
  lemma {:induction false} SplitsInTwo(b: TextBlock, n: nat, target: nat)
    requires 0 < n < target && |b.text| == target + 1 && b.text[n] == ' '
    requires forall i :: n < i < |b.text| ==> b.text[i] != ' '
    requires !Blank(b.text[0..n]) && !Blank(b.text[n + 1..|b.text|])
    ensures Split(b, target) == [Part(b, 0, n), Part(b, n + 1, |b.text|)]
  {
    CutAtSpace(b.text, n, target);
    assert [] + [Part(b, 0, n)] == [Part(b, 0, n)];
    SplitEnds(b, n + 1, target, [Part(b, 0, n)]);
  }

  /** The one block of a document, when it is split in two parts that fit the target together. */
  lemma {:induction false} SplitIsOneChunk(b: TextBlock, target: nat, overlapRatio: real, one: TextBlock, two: TextBlock)
    requires 0 < target < |b.text| && Split(b, target) == [one, two] && |one.text| + |two.text| <= target
    requires 0.0 <= overlapRatio < 1.0
    ensures ChunkingOf([b], target, overlapRatio) == Chunks([BuildChunkSpec([one, two], 0)])
  {
    var bs := Normalized([b], target);
    assert NormalizedUpTo([b], 0, target) == [] && bs == [] + Split(b, target);
    assert bs == [one, two];
    assert Offset(bs, 0) == 0 && Offset(bs, 1) == |one.text| && Offset(bs, 2) == |one.text| + |two.text|;
    OneChunk([b], target, overlapRatio);
  }

  lemma {:induction false} FindsSpace(text: string, n: nat, end: nat)
    requires n < end <= |text| && text[n] == ' ' && forall i :: n < i < end ==> text[i] != ' '
    ensures RFindSpace(text, 0, end) == n
    decreases end
  {
    if n < end - 1 {
      FindsSpace(text, n, end - 1);
    }
  }

  /**
   * One block is enough: a text one character over the target whose last word follows a space is split at that
   * space, and its one chunk rejoins the parts with two newlines the document never had.
   */
  lemma {:induction false} SplitPartsAreNotCitedExactly(b: TextBlock, n: nat, target: nat, overlapRatio: real)
    requires 0 < n < target && |b.text| == target + 1 && b.text[n] == ' '
    requires forall i :: n < i < |b.text| ==> b.text[i] != ' '
    requires !Blank(b.text[0..n]) && !Blank(b.text[n + 1..|b.text|])
    requires IsSlice(b, b.text, 0) && 0.0 <= overlapRatio < 1.0
    ensures Aligned([b], b.text)
    ensures var specs := ChunkingOf([b], target, overlapRatio).specs;
            && |specs| == 1
            && specs[0].charStart == 0 && specs[0].charEnd == |b.text|
            && specs[0].text == b.text[0..n] + "\n\n" + b.text[n + 1..|b.text|] != b.text
  {
    var one, two := Part(b, 0, n), Part(b, n + 1, |b.text|);
    SplitsInTwo(b, n, target);
    SplitIsOneChunk(b, target, overlapRatio, one, two);
    JoinedTwo([one, two]);
  }

  lemma {:induction false} JoinedTwo(bs: seq<TextBlock>)
    requires |bs| == 2
    ensures Joined(bs) == bs[0].text + "\n\n" + bs[1].text
  {
    JoinedSplits(bs);
    JoinedSplits(bs[..1]);
  }

  // ----- the rest of a chunk's record --------------------------------------

  /** A chunk is numbered by its place, labelled by its first block, and identified by its own text. */
  lemma {:induction false} ChunkRecords(blocks: seq<TextBlock>, target: int, overlapRatio: real, i: nat)
    requires target > 0 && 0.0 <= overlapRatio < 1.0
    requires i < |ChunkingOf(blocks, target, overlapRatio).specs|
    ensures var c, w := ChunkingOf(blocks, target, overlapRatio).specs[i], BlocksOfChunk(blocks, target, overlapRatio, i);
            && w != [] && c.ordinal == i && c.text == Joined(w)
            && c.charStart == w[0].charStart && c.charEnd == w[|w| - 1].charEnd && c.sectionPath == w[0].sectionPath
            && c.sha256 == Sha256(c.text) && c.tokenEstimate == EstimateTokens(c.text)
  {
    var bs, overlap, ws := ChunkingWindows(blocks, target, overlapRatio);
  }
}
