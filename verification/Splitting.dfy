/** Hard splits of the blocks that alone exceed the target size of a chunk, and the list of blocks after splitting. */
module Splitting {
  import opened Text
  import opened Blocks

  // ----- splitting one oversized block -------------------------------------

  /** The last space of `text[pos..end]`, or -1. */
  function RFindSpace(text: string, pos: nat, end: nat): (at: int)
    requires pos <= end <= |text|
    ensures at == -1 || pos <= at < end
    decreases end - pos
  {
    if pos == end then -1
    else if text[end - 1] == ' ' then end - 1
    else RFindSpace(text, pos, end - 1)
  }

  lemma {:induction false} RFindsLast(text: string, pos: nat, end: nat)
    requires pos <= end <= |text|
    ensures var at := RFindSpace(text, pos, end);
            (at >= 0 ==> text[at] == ' ') && ' ' !in text[if at < 0 then pos else at + 1..end]
    decreases end - pos
  {
    if pos < end && text[end - 1] != ' ' {
      RFindsLast(text, pos, end - 1);
    }
  }

  function SkipSpaces(text: string, pos: nat): (p: nat)
    requires pos <= |text|
    ensures pos <= p <= |text|
    decreases |text| - pos
  {
    if pos < |text| && text[pos] == ' ' then SkipSpaces(text, pos + 1) else pos
  }

  lemma {:induction false} SkipsBlanks(text: string, pos: nat)
    requires pos <= |text|
    ensures Blank(text[pos..SkipSpaces(text, pos)])
    decreases |text| - pos
  {
    if pos < |text| && text[pos] == ' ' {
      SkipsBlanks(text, pos + 1);
      BlankCut(text, pos, pos + 1, SkipSpaces(text, pos));
    }
  }

  function CutEnd(text: string, pos: nat, target: nat): (end: nat)
    requires pos < |text| && target > 0
    ensures pos < end <= |text| && end - pos <= target
  {
    if pos + target >= |text| then |text|
    else
      var at := RFindSpace(text, pos, pos + target);
      if at > pos then at else pos + target
  }

  function Part(b: TextBlock, lo: nat, hi: nat): TextBlock
    requires lo <= hi <= |b.text|
  {
    TextBlock(b.text[lo..hi], b.charStart + lo, b.charStart + hi, b.sectionPath, b.locationLabel)
  }

  /** `parts`, followed by the parts that the rest of a block, from `pos` on, is split into. */
  function SplitFrom(b: TextBlock, pos: nat, target: nat, parts: seq<TextBlock>): seq<TextBlock>
    requires pos <= |b.text| && target > 0
    decreases |b.text| - pos
  {
    if pos == |b.text| then parts
    else
      var end := CutEnd(b.text, pos, target);
      SplitFrom(b, SkipSpaces(b.text, end), target, KeepPart(b, pos, end, parts))
  }

  function KeepPart(b: TextBlock, lo: nat, hi: nat, parts: seq<TextBlock>): seq<TextBlock>
    requires lo <= hi <= |b.text|
  {
    if Blank(b.text[lo..hi]) then parts else parts + [Part(b, lo, hi)]
  }

  function Split(b: TextBlock, target: nat): seq<TextBlock>
    requires target > 0
  {
    SplitFrom(b, 0, target, [])
  }

  method SkipRun(text: string, start: nat) returns (pos: nat)
    requires start <= |text|
    ensures pos == SkipSpaces(text, start)
  {
    pos := start;
    while pos < |text| && text[pos] == ' '
      invariant start <= pos <= |text|
      invariant SkipSpaces(text, pos) == SkipSpaces(text, start)
    {
      pos := pos + 1;
    }
  }

  method SplitOversizedBlock(b: TextBlock, target: nat) returns (parts: seq<TextBlock>)
    requires target > 0
    ensures parts == Split(b, target)
  {
    parts := [];
    var pos := 0;
    while pos < |b.text|
      invariant 0 <= pos <= |b.text|
      invariant SplitFrom(b, pos, target, parts) == Split(b, target)
    {
      var end := CutEnd(b.text, pos, target);
      if !Blank(b.text[pos..end]) {
        parts := parts + [Part(b, pos, end)];
      }
      pos := SkipRun(b.text, end);
    }
  }

  /**
   * A part is a non-blank slice of at most `target` characters. It ends inside a word only if it is
   * full and has no space after its first character.
   */
  predicate IsPart(p: TextBlock, b: TextBlock, target: nat) {
    && IsSlice(p, b.text, b.charStart)
    && !Blank(p.text) && |p.text| <= target
    && p.sectionPath == b.sectionPath && p.locationLabel == b.locationLabel
    && var end := p.charEnd - b.charStart;
       && (end == |b.text| || b.text[end] == ' '
           || (|p.text| == target && ' ' !in p.text[1..]))
       && (end < |b.text| ==> EndsAsLateAsItCan(b.text, p.charStart - b.charStart, end, target))
  }

  /** The cut is needed, and there is no later space where it could have been made. */
  predicate EndsAsLateAsItCan(text: string, start: nat, end: nat, target: nat) {
    start + target < |text| && forall k :: end < k < start + target ==> text[k] != ' '
  }

  lemma {:induction false} CutIsPart(b: TextBlock, pos: nat, target: nat)
    requires pos < |b.text| && target > 0
    ensures var end := CutEnd(b.text, pos, target);
            !Blank(b.text[pos..end]) ==> IsPart(Part(b, pos, end), b, target)
  {
    CutEndsRight(b.text, pos, target);
    var part := Part(b, pos, CutEnd(b.text, pos, target));
    assert IsSlice(part, b.text, b.charStart);
  }

  lemma {:induction false} CutEndsRight(text: string, pos: nat, target: nat)
    requires pos < |text| && target > 0
    ensures var end := CutEnd(text, pos, target);
            && (end == |text| || text[end] == ' ' || (end - pos == target && ' ' !in text[pos..end][1..]))
            && (end < |text| ==> EndsAsLateAsItCan(text, pos, end, target))
  {
    if pos + target < |text| {
      var at := RFindSpace(text, pos, pos + target);
      RFindsLast(text, pos, pos + target);
      if at > pos {
        SpacesEndBefore(text, at + 1, pos + target);
      } else {
        FullPartHasNoSpace(text, pos, pos + target, at);
      }
    }
  }

  lemma {:induction false} SpacesEndBefore(text: string, lo: nat, hi: nat)
    requires lo <= hi <= |text| && ' ' !in text[lo..hi]
    ensures forall k :: lo <= k < hi ==> text[k] != ' '
  {
    forall k | lo <= k < hi ensures text[k] != ' ' {
      assert text[lo..hi][k - lo] == text[k];
    }
  }

  /** A part without a later space to end at has no space after its first character. */
  lemma {:induction false} FullPartHasNoSpace(text: string, pos: nat, end: nat, at: int)
    requires pos < end <= |text| && at <= pos && (at == -1 || at == pos)
    requires ' ' !in text[if at < 0 then pos else at + 1..end]
    ensures ' ' !in text[pos..end][1..]
  {
    assert text[pos..end][1..] == text[pos + 1..end];
    SpacesEndBefore(text, if at < 0 then pos else at + 1, end);
  }

  lemma {:induction false} SplitParts(b: TextBlock, pos: nat, target: nat, parts: seq<TextBlock>)
    requires pos <= |b.text| && target > 0
    requires forall p <- parts :: IsPart(p, b, target)
    ensures forall p <- SplitFrom(b, pos, target, parts) :: IsPart(p, b, target)
    decreases |b.text| - pos
  {
    if pos < |b.text| {
      var end := CutEnd(b.text, pos, target);
      var next := SkipSpaces(b.text, end);
      if Blank(b.text[pos..end]) {
        SplitParts(b, next, target, parts);
      } else {
        CutIsPart(b, pos, target);
        SplitParts(b, next, target, parts + [Part(b, pos, end)]);
      }
    }
  }

  lemma {:induction false} SkipsAll(text: string, pos: nat)
    requires pos <= |text|
    ensures var p := SkipSpaces(text, pos); p < |text| ==> text[p] != ' '
    decreases |text| - pos
  {
    if pos < |text| && text[pos] == ' ' {
      SkipsAll(text, pos + 1);
    }
  }

  /** Every part but one at the very start of the block begins past the spaces after the cut. */
  predicate StartsPastSpaces(b: TextBlock, parts: seq<TextBlock>) {
    forall i :: 0 <= i < |parts| ==> parts[i].text != "" && (parts[i].charStart == b.charStart || parts[i].text[0] != ' ')
  }

  lemma {:induction false} SplitSkipsSpaces(b: TextBlock, pos: nat, target: nat, parts: seq<TextBlock>)
    requires pos <= |b.text| && target > 0 && (pos == 0 || pos == |b.text| || b.text[pos] != ' ')
    requires StartsPastSpaces(b, parts)
    ensures StartsPastSpaces(b, SplitFrom(b, pos, target, parts))
    decreases |b.text| - pos
  {
    if pos < |b.text| {
      var end := CutEnd(b.text, pos, target);
      SkipsAll(b.text, end);
      assert b.text[pos..end][0] == b.text[pos];
      SplitSkipsSpaces(b, SkipSpaces(b.text, end), target, KeepPart(b, pos, end, parts));
    }
  }

  /** The parts are ordered and disjoint, and only whitespace is dropped between them. */
  lemma {:induction false} SplitTiles(b: TextBlock, pos: nat, target: nat, parts: seq<TextBlock>)
    requires pos <= |b.text| && target > 0
    requires Tiles(parts, b.text, b.charStart, 0, pos)
    ensures Tiles(SplitFrom(b, pos, target, parts), b.text, b.charStart, 0, |b.text|)
    decreases |b.text| - pos
  {
    if pos < |b.text| {
      var end := CutEnd(b.text, pos, target);
      var next := SkipSpaces(b.text, end);
      SkipsBlanks(b.text, end);
      KeepPartTiles(b, pos, end, next, parts);
      SplitTiles(b, next, target, KeepPart(b, pos, end, parts));
    }
  }

  lemma {:induction false} KeepPartTiles(b: TextBlock, lo: nat, hi: nat, next: nat, parts: seq<TextBlock>)
    requires lo <= hi <= next <= |b.text| && Blank(b.text[hi..next])
    requires Tiles(parts, b.text, b.charStart, 0, lo)
    ensures Tiles(KeepPart(b, lo, hi, parts), b.text, b.charStart, 0, next)
  {
    if Blank(b.text[lo..hi]) {
      BlankCut(b.text, lo, hi, next);
      TilesPad(parts, b.text, b.charStart, 0, lo, next);
    } else {
      TilesSnoc(parts, Part(b, lo, hi), b.text, b.charStart, 0, next);
    }
  }

  /** Every part is a proper part, and together they carry all of the block but whitespace. */
  lemma {:induction false} SplitIsFaithful(b: TextBlock, target: nat)
    requires target > 0
    ensures forall p <- Split(b, target) :: IsPart(p, b, target)
    ensures Tiles(Split(b, target), b.text, b.charStart, 0, |b.text|)
    ensures BlocksInk(Split(b, target)) == Ink(b.text)
    ensures StartsPastSpaces(b, Split(b, target))
  {
    SplitSkipsSpaces(b, 0, target, []);
    SplitParts(b, 0, target, []);
    SplitTiles(b, 0, target, []);
    TilesInk(Split(b, target), b.text, b.charStart, 0, |b.text|);
    assert b.text[0..|b.text|] == b.text;
  }

  // ----- normalizing the block list ----------------------------------------

  function NormalizedBlock(b: TextBlock, target: nat): seq<TextBlock>
    requires target > 0
  {
    if |b.text| <= target then [b] else Split(b, target)
  }

  /** The first `n` blocks, with the oversized ones split. */
  function NormalizedUpTo(bs: seq<TextBlock>, n: nat, target: nat): seq<TextBlock>
    requires n <= |bs| && target > 0
  {
    if n == 0 then [] else NormalizedUpTo(bs, n - 1, target) + NormalizedBlock(bs[n - 1], target)
  }

  function Normalized(bs: seq<TextBlock>, target: nat): seq<TextBlock>
    requires target > 0
  {
    NormalizedUpTo(bs, |bs|, target)
  }

  method NormalizeBlocks(blocks: seq<TextBlock>, target: nat) returns (normalized: seq<TextBlock>)
    requires target > 0
    ensures normalized == Normalized(blocks, target)
  {
    normalized := [];
    for i := 0 to |blocks|
      invariant normalized == NormalizedUpTo(blocks, i, target)
    {
      if |blocks[i].text| <= target {
        normalized := normalized + [blocks[i]];
      } else {
        var parts := SplitOversizedBlock(blocks[i], target);
        normalized := normalized + parts;
      }
    }
  }

  lemma {:induction false} NormalizedFits(bs: seq<TextBlock>, n: nat, target: nat)
    requires n <= |bs| && target > 0
    ensures forall b <- NormalizedUpTo(bs, n, target) :: |b.text| <= target
  {
    if n > 0 {
      NormalizedFits(bs, n - 1, target);
      SplitParts(bs[n - 1], 0, target, []);
    }
  }

  lemma {:induction false} NormalizedBlockInk(b: TextBlock, target: nat)
    requires target > 0
    ensures BlocksInk(NormalizedBlock(b, target)) == Ink(b.text)
  {
    SplitIsFaithful(b, target);
    assert BlocksInk([b]) == BlocksInk([b][..0]) + Ink(b.text);
  }

  /** Splitting oversized blocks loses no text. */
  lemma {:induction false} NormalizedInk(bs: seq<TextBlock>, n: nat, target: nat)
    requires n <= |bs| && target > 0
    ensures BlocksInk(NormalizedUpTo(bs, n, target)) == BlocksInk(bs[..n])
  {
    if n > 0 {
      NormalizedInk(bs, n - 1, target);
      BlocksInkConcat(NormalizedUpTo(bs, n - 1, target), NormalizedBlock(bs[n - 1], target));
      NormalizedBlockInk(bs[n - 1], target);
      BlocksInkPrefix(bs, n);
    }
  }

  lemma {:induction false} NormalizedBlockTiles(b: TextBlock, target: nat, doc: string)
    requires target > 0 && IsSlice(b, doc, 0)
    ensures Tiles(NormalizedBlock(b, target), doc, 0, b.charStart, b.charEnd)
  {
    if |b.text| <= target {
      TilesOne(b, doc);
      assert NormalizedBlock(b, target) == [b];
    } else {
      SplitTilesIn(b, target, doc);
      assert NormalizedBlock(b, target) == Split(b, target);
    }
  }

  lemma {:induction false} SplitTilesIn(b: TextBlock, target: nat, doc: string)
    requires target > 0 && IsSlice(b, doc, 0)
    ensures Tiles(Split(b, target), doc, 0, b.charStart, b.charEnd)
  {
    SplitTiles(b, 0, target, []);
    TilesRebaseWhole(Split(b, target), b, doc);
  }

  /** If the parsed blocks tile the document, so do the blocks after splitting. */
  lemma {:induction false} NormalizedTiles(bs: seq<TextBlock>, n: nat, target: nat, doc: string, lo: nat, hi: nat)
    requires n <= |bs| && target > 0 && Tiles(bs[..n], doc, 0, lo, hi)
    ensures Tiles(NormalizedUpTo(bs, n, target), doc, 0, lo, hi)
  {
    if n > 0 {
      var b := bs[n - 1];
      assert bs[..n][..n - 1] == bs[..n - 1];
      NormalizedTiles(bs, n - 1, target, doc, lo, b.charStart);
      NormalizedBlockTiles(b, target, doc);
      TilesPad(NormalizedBlock(b, target), doc, 0, b.charStart, b.charEnd, hi);
      TilesConcat(NormalizedUpTo(bs, n - 1, target), NormalizedBlock(b, target), doc, 0, lo, b.charStart, hi);
    }
  }

  lemma {:induction false} NormalizedSame(bs: seq<TextBlock>, n: nat, target: nat)
    requires n <= |bs| && target > 0 && forall b <- bs :: |b.text| <= target
    ensures NormalizedUpTo(bs, n, target) == bs[..n]
  {
    if n > 0 {
      NormalizedSame(bs, n - 1, target);
    }
  }
}
