/** Deterministic chunking: overlapping windows of whole blocks, over parser output. */
module Chunking {
  import opened Text
  import opened Blocks
  import opened Splitting

  /** SHA-256 as an injective constructor: distinct texts never share a digest. */
  datatype Digest = Sha256(preimage: string)

  datatype ChunkSpec = ChunkSpec(
    ordinal: nat, text: string, charStart: nat, charEnd: nat,
    sectionPath: Option<string>, sha256: Digest, tokenEstimate: nat)

  datatype ChunkError = NonPositiveTarget | RatioOutOfRange

  datatype ChunkResult = Chunks(specs: seq<ChunkSpec>) | Rejected(error: ChunkError)

  const CHARS_PER_TOKEN_ESTIMATE := 4

  function EstimateTokens(text: string): (n: nat)
    ensures n >= 1 && (|text| >= 4 ==> 4 * n <= |text| < 4 * n + 4) && (|text| < 4 ==> n == 1)
  {
    if |text| / CHARS_PER_TOKEN_ESTIMATE >= 1 then |text| / CHARS_PER_TOKEN_ESTIMATE else 1
  }

  function BuildChunkSpec(bs: seq<TextBlock>, ordinal: nat): ChunkSpec
    requires bs != []
  {
    var text := Joined(bs);
    ChunkSpec(ordinal, text, bs[0].charStart, bs[|bs| - 1].charEnd, bs[0].sectionPath,
              Sha256(text), EstimateTokens(text))
  }

  // ----- windows over the normalized blocks --------------------------------

  /** One chunk: the carried-over blocks `lo..mid` followed by the new blocks `mid..hi`. */
  datatype Window = Window(lo: nat, mid: nat, hi: nat)

  /** Summed length of the first `k` blocks. */
  function Offset(bs: seq<TextBlock>, k: nat): nat
    requires k <= |bs|
  {
    if k == 0 then 0 else Offset(bs, k - 1) + |bs[k - 1].text|
  }

  function Size(bs: seq<TextBlock>, lo: nat, hi: nat): int
    requires lo <= hi <= |bs|
  {
    Offset(bs, hi) - Offset(bs, lo)
  }

  lemma {:induction false} OffsetMonotone(bs: seq<TextBlock>, j: nat, k: nat)
    requires j <= k <= |bs|
    ensures Offset(bs, j) <= Offset(bs, k)
    decreases k
  {
    if j < k {
      OffsetMonotone(bs, j, k - 1);
    }
  }

  /** How far a chunk that starts at `lo` and already reaches `k` is filled without exceeding the target. */
  function Fill(bs: seq<TextBlock>, lo: nat, k: nat, target: nat): (end: nat)
    requires lo <= k <= |bs|
    ensures k <= end <= |bs|
    decreases |bs| - k
  {
    if k == |bs| || (k > lo && Size(bs, lo, k + 1) > target) then k else Fill(bs, lo, k + 1, target)
  }

  function NextEnd(bs: seq<TextBlock>, lo: nat, mid: nat, target: nat): (hi: nat)
    requires lo <= mid < |bs|
    ensures mid < hi <= |bs|
  {
    var end := Fill(bs, lo, mid, target);
    if end == mid then mid + 1 else end
  }

  function CarryFrom(bs: seq<TextBlock>, lo: nat, k: nat, hi: nat, overlap: nat): (start: nat)
    requires lo <= k <= hi <= |bs|
    ensures lo <= start <= k
    decreases k
  {
    if k == lo || Size(bs, k - 1, hi) > overlap then k else CarryFrom(bs, lo, k - 1, hi, overlap)
  }

  function CarryStart(bs: seq<TextBlock>, lo: nat, hi: nat, overlap: nat): (start: nat)
    requires lo <= hi <= |bs|
    ensures lo <= start <= hi
  {
    if hi < |bs| && overlap > 0 then CarryFrom(bs, lo, hi, hi, overlap) else hi
  }

  /** The windows `ws`, followed by the windows that cover the blocks from `mid` on. */
  function WindowsFrom(bs: seq<TextBlock>, lo: nat, mid: nat, target: nat, overlap: nat, ws: seq<Window>): seq<Window>
    requires lo <= mid <= |bs|
    decreases |bs| - mid
  {
    if mid == |bs| then ws
    else
      var hi := NextEnd(bs, lo, mid, target);
      WindowsFrom(bs, CarryStart(bs, lo, hi, overlap), hi, target, overlap, ws + [Window(lo, mid, hi)])
  }

  function Windows(bs: seq<TextBlock>, target: nat, overlap: nat): seq<Window> {
    WindowsFrom(bs, 0, 0, target, overlap, [])
  }

  predicate InBounds(bs: seq<TextBlock>, w: Window) {
    w.lo <= w.mid < w.hi <= |bs|
  }

  function SpecOf(bs: seq<TextBlock>, w: Window, ordinal: nat): ChunkSpec
    requires InBounds(bs, w)
  {
    BuildChunkSpec(bs[w.lo..w.hi], ordinal)
  }

  function OverlapChars(target: nat, ratio: real): (n: nat)
    requires 0.0 <= ratio
    ensures n as real <= target as real * ratio < n as real + 1.0
  {
    FloorOfProduct(target, ratio);
    (target as real * ratio).Floor
  }

  lemma {:induction false} FloorOfProduct(target: nat, ratio: real)
    requires 0.0 <= ratio
    ensures 0 <= (target as real * ratio).Floor
    ensures ratio < 1.0 && target > 0 ==> (target as real * ratio).Floor < target
  {
    assert 0.0 <= target as real * ratio;
    if ratio < 1.0 && target > 0 {
      assert target as real * ratio < target as real;
    }
  }

  /**
   * The reference definition of a window sequence, which does not say how it is computed. Every chunk adds
   * at least one block, and stops at the first block that would exceed the target, or after one forced block.
   */
  predicate IsFilled(bs: seq<TextBlock>, w: Window, target: nat)
  {
    && InBounds(bs, w)
    && (w.hi == w.mid + 1 || Size(bs, w.lo, w.hi) <= target)
    && (w.hi < |bs| ==> Size(bs, w.lo, w.hi + 1) > target)
  }

  /** The next chunk carries over the longest run of trailing blocks that fits the overlap. */
  predicate IsCarried(bs: seq<TextBlock>, w: Window, lo: nat, overlap: nat)
    requires InBounds(bs, w)
  {
    && w.lo <= lo <= w.hi
    && (if w.hi < |bs| && overlap > 0
        then Size(bs, lo, w.hi) <= overlap && (lo > w.lo ==> Size(bs, lo - 1, w.hi) > overlap)
        else lo == w.hi)
  }

  /** `ws` windows the first `mid` blocks, and the next window starts with the carry at `lo`. */
  predicate IsWindowingTo(bs: seq<TextBlock>, ws: seq<Window>, lo: nat, mid: nat, target: nat, overlap: nat) {
    if ws == [] then lo == mid == 0
    else
      var w := ws[|ws| - 1];
      && IsFilled(bs, w, target)
      && mid == w.hi
      && IsCarried(bs, w, lo, overlap)
      && IsWindowingTo(bs, ws[..|ws| - 1], w.lo, w.mid, target, overlap)
  }

  predicate IsWindowing(bs: seq<TextBlock>, ws: seq<Window>, target: nat, overlap: nat) {
    IsWindowingTo(bs, ws, |bs|, |bs|, target, overlap)
  }

  lemma {:induction false} FillStops(bs: seq<TextBlock>, lo: nat, k: nat, target: nat)
    requires lo <= k <= |bs| && target > 0
    requires forall b <- bs :: |b.text| <= target
    ensures var end := Fill(bs, lo, k, target);
            && (end > k ==> Size(bs, lo, end) <= target)
            && (end < |bs| ==> end > lo && Size(bs, lo, end + 1) > target)
    decreases |bs| - k
  {
    if !(k == |bs| || (k > lo && Size(bs, lo, k + 1) > target)) {
      FillStops(bs, lo, k + 1, target);
      if k == lo {
        assert Size(bs, lo, k + 1) == |bs[k].text|;
      }
    }
  }

  lemma {:induction false} NextEndFills(bs: seq<TextBlock>, lo: nat, mid: nat, target: nat)
    requires lo <= mid < |bs| && target > 0
    requires forall b <- bs :: |b.text| <= target
    ensures IsFilled(bs, Window(lo, mid, NextEnd(bs, lo, mid, target)), target)
  {
    FillStops(bs, lo, mid, target);
    var hi := NextEnd(bs, lo, mid, target);
    if hi < |bs| {
      OffsetMonotone(bs, hi, hi + 1);
    }
  }

  lemma {:induction false} CarryFromFits(bs: seq<TextBlock>, lo: nat, k: nat, hi: nat, overlap: nat)
    requires lo <= k <= hi <= |bs| && Size(bs, k, hi) <= overlap
    ensures var start := CarryFrom(bs, lo, k, hi, overlap);
            Size(bs, start, hi) <= overlap && (start > lo ==> Size(bs, start - 1, hi) > overlap)
    decreases k
  {
    if !(k == lo || Size(bs, k - 1, hi) > overlap) {
      CarryFromFits(bs, lo, k - 1, hi, overlap);
    }
  }

  lemma {:induction false} WindowsFromIsWindowing(bs: seq<TextBlock>, lo: nat, mid: nat, target: nat, overlap: nat, ws: seq<Window>)
    requires target > 0 && forall b <- bs :: |b.text| <= target
    requires lo <= mid <= |bs| && (mid == |bs| ==> lo == mid)
    requires IsWindowingTo(bs, ws, lo, mid, target, overlap)
    ensures IsWindowing(bs, WindowsFrom(bs, lo, mid, target, overlap, ws), target, overlap)
    decreases |bs| - mid
  {
    if mid < |bs| {
      var hi := NextEnd(bs, lo, mid, target);
      var next := CarryStart(bs, lo, hi, overlap);
      NextEndFills(bs, lo, mid, target);
      CarryFromFits(bs, lo, hi, hi, overlap);
      assert (ws + [Window(lo, mid, hi)])[..|ws|] == ws;
      WindowsFromIsWindowing(bs, next, hi, target, overlap, ws + [Window(lo, mid, hi)]);
    }
  }

  lemma {:induction false} FilledUnique(bs: seq<TextBlock>, v: Window, w: Window, target: nat)
    requires IsFilled(bs, v, target) && IsFilled(bs, w, target) && v.lo == w.lo && v.mid == w.mid
    ensures v == w
  {
    if v.hi < w.hi {
      OffsetMonotone(bs, v.hi + 1, w.hi);
    } else if w.hi < v.hi {
      OffsetMonotone(bs, w.hi + 1, v.hi);
    }
  }

  lemma {:induction false} CarriedUnique(bs: seq<TextBlock>, w: Window, i: nat, j: nat, overlap: nat)
    requires InBounds(bs, w) && IsCarried(bs, w, i, overlap) && IsCarried(bs, w, j, overlap)
    ensures i == j
  {
    if i < j {
      OffsetMonotone(bs, i, j - 1);
    } else if j < i {
      OffsetMonotone(bs, j, i - 1);
    }
  }

  /** A window that meets the definition is the one the computation takes next. */
  lemma {:induction false} StepIsComputed(
    bs: seq<TextBlock>, w: Window, lo: nat, target: nat, overlap: nat, init: seq<Window>)
    requires target > 0 && forall b <- bs :: |b.text| <= target
    requires IsFilled(bs, w, target) && IsCarried(bs, w, lo, overlap)
    ensures lo <= w.hi
    ensures WindowsFrom(bs, w.lo, w.mid, target, overlap, init) == WindowsFrom(bs, lo, w.hi, target, overlap, init + [w])
  {
    NextEndFills(bs, w.lo, w.mid, target);
    FilledUnique(bs, w, Window(w.lo, w.mid, NextEnd(bs, w.lo, w.mid, target)), target);
    CarryFromFits(bs, w.lo, w.hi, w.hi, overlap);
    CarriedUnique(bs, w, lo, CarryStart(bs, w.lo, w.hi, overlap), overlap);
  }

  /** Every partial windowing is a state the computation passes through. */
  lemma {:induction false} WindowingIsComputed(bs: seq<TextBlock>, ws: seq<Window>, lo: nat, mid: nat, target: nat, overlap: nat)
    requires target > 0 && forall b <- bs :: |b.text| <= target
    requires IsWindowingTo(bs, ws, lo, mid, target, overlap)
    ensures lo <= mid <= |bs|
    ensures Windows(bs, target, overlap) == WindowsFrom(bs, lo, mid, target, overlap, ws)
  {
    if ws != [] {
      var w, init := ws[|ws| - 1], ws[..|ws| - 1];
      WindowingIsComputed(bs, init, w.lo, w.mid, target, overlap);
      StepIsComputed(bs, w, lo, target, overlap, init);
      assert ws == init + [w];
    }
  }

  /** The computed windows are the only ones that meet the reference definition. */
  lemma {:induction false} WindowsCharacterized(bs: seq<TextBlock>, ws: seq<Window>, target: nat, overlap: nat)
    requires target > 0 && forall b <- bs :: |b.text| <= target
    ensures ws == Windows(bs, target, overlap) <==> IsWindowing(bs, ws, target, overlap)
  {
    WindowsFromIsWindowing(bs, 0, 0, target, overlap, []);
    if IsWindowing(bs, ws, target, overlap) {
      WindowingIsComputed(bs, ws, |bs|, |bs|, target, overlap);
    }
  }

  /** What a reader needs of the window in place `i`, read off the reference definition. */
  lemma {:induction false} WindowAt(bs: seq<TextBlock>, ws: seq<Window>, lo: nat, mid: nat, target: nat, overlap: nat, i: nat)
    requires IsWindowingTo(bs, ws, lo, mid, target, overlap) && i < |ws|
    ensures IsFilled(bs, ws[i], target)
    ensures i == 0 ==> ws[i].lo == ws[i].mid == 0
    ensures i > 0 ==> InBounds(bs, ws[i - 1]) && ws[i].mid == ws[i - 1].hi && IsCarried(bs, ws[i - 1], ws[i].lo, overlap)
    decreases |ws|
  {
    var n := |ws| - 1;
    if i < n {
      WindowAt(bs, ws[..n], ws[n].lo, ws[n].mid, target, overlap, i);
    } else if i > 0 {
      assert ws[..n][n - 1] == ws[i - 1];
    }
  }

  /**
   * A chunk holds at most target + overlap characters of block text, and exceeds the target only when it is
   * a carried-over run plus one forced block.
   */
  lemma {:induction false} WindowSizes(bs: seq<TextBlock>, target: nat, overlap: nat, i: nat)
    requires target > 0 && overlap < target && forall b <- bs :: |b.text| <= target
    requires i < |Windows(bs, target, overlap)|
    ensures var w := Windows(bs, target, overlap)[i];
            && InBounds(bs, w)
            && Size(bs, w.lo, w.hi) <= target + overlap
            && (Size(bs, w.lo, w.hi) > target ==> w.lo < w.mid && w.hi == w.mid + 1)
            && Size(bs, w.lo, w.mid) <= overlap
  {
    var ws := Windows(bs, target, overlap);
    WindowsCharacterized(bs, ws, target, overlap);
    WindowAt(bs, ws, |bs|, |bs|, target, overlap, i);
    assert Size(bs, ws[i].mid, ws[i].mid + 1) == |bs[ws[i].mid].text|;
  }

  /** The new blocks of a window sequence, in order. */
  function NewBlocks(bs: seq<TextBlock>, ws: seq<Window>): seq<TextBlock> {
    if ws == [] then []
    else
      var w := ws[|ws| - 1];
      NewBlocks(bs, ws[..|ws| - 1]) + if InBounds(bs, w) then bs[w.mid..w.hi] else []
  }

  lemma {:induction false} WindowsCover(bs: seq<TextBlock>, ws: seq<Window>, lo: nat, mid: nat, target: nat, overlap: nat)
    requires IsWindowingTo(bs, ws, lo, mid, target, overlap)
    ensures NewBlocks(bs, ws) == bs[..mid]
  {
    if ws != [] {
      var w, init := ws[|ws| - 1], ws[..|ws| - 1];
      WindowsCover(bs, init, w.lo, w.mid, target, overlap);
      assert bs[..w.mid] + bs[w.mid..w.hi] == bs[..mid];
    }
  }

  // ----- the chunker -------------------------------------------------------

  /** `chunks`, followed by the chunks of the windows that cover the blocks from `mid` on. */
  function ChunksFrom(bs: seq<TextBlock>, lo: nat, mid: nat, target: nat, overlap: nat, chunks: seq<ChunkSpec>): seq<ChunkSpec>
    requires lo <= mid <= |bs|
    decreases |bs| - mid
  {
    if mid == |bs| then chunks
    else
      var hi := NextEnd(bs, lo, mid, target);
      ChunksFrom(bs, CarryStart(bs, lo, hi, overlap), hi, target, overlap,
                 chunks + [SpecOf(bs, Window(lo, mid, hi), |chunks|)])
  }

  function ChunkingOf(blocks: seq<TextBlock>, target: int, overlapRatio: real): ChunkResult {
    if target <= 0 then Rejected(NonPositiveTarget)
    else if !(0.0 <= overlapRatio < 1.0) then Rejected(RatioOutOfRange)
    else
      Chunks(ChunksFrom(Normalized(blocks, target), 0, 0, target, OverlapChars(target, overlapRatio), []))
  }

  function TotalLength(bs: seq<TextBlock>): nat {
    Offset(bs, |bs|)
  }

  lemma {:induction false} SliceOffset(bs: seq<TextBlock>, lo: nat, hi: nat, k: nat)
    requires lo <= hi <= |bs| && k <= hi - lo
    ensures Offset(bs[lo..hi], k) == Size(bs, lo, lo + k)
  {
    if k > 0 {
      SliceOffset(bs, lo, hi, k - 1);
      assert bs[lo..hi][k - 1] == bs[lo + k - 1];
    }
  }

  lemma {:induction false} WindowGrows(bs: seq<TextBlock>, lo: nat, i: nat)
    requires lo <= i < |bs|
    ensures bs[lo..i] + [bs[i]] == bs[lo..i + 1]
  {
  }

  method FillChunk(bs: seq<TextBlock>, carry: seq<TextBlock>, start: nat, target: nat, ghost lo: nat)
    returns (current: seq<TextBlock>, index: nat)
    requires lo <= start < |bs| && carry == bs[lo..start]
    ensures index == NextEnd(bs, lo, start, target) && current == bs[lo..index]
  {
    current := carry;
    var currentLen := TotalLength(current);
    SliceOffset(bs, lo, start, start - lo);
    index := start;
    var madeProgress := false;
    while index < |bs|
      invariant start <= index <= |bs|
      invariant current == bs[lo..index] && currentLen == Size(bs, lo, index)
      invariant madeProgress <==> index > start
      invariant Fill(bs, lo, index, target) == Fill(bs, lo, start, target)
    {
      var block := bs[index];
      if current != [] && currentLen + |block.text| > target {
        break;
      }
      WindowGrows(bs, lo, index);
      current := current + [block];
      currentLen := currentLen + |block.text|;
      index := index + 1;
      madeProgress := true;
    }
    if !madeProgress {
      WindowGrows(bs, lo, index);
      current := current + [bs[index]];
      index := index + 1;
    }
  }

  method CarryOver(current: seq<TextBlock>, overlap: nat, ghost bs: seq<TextBlock>, ghost lo: nat, ghost hi: nat)
    returns (carry: seq<TextBlock>)
    requires lo <= hi <= |bs| && current == bs[lo..hi]
    ensures carry == bs[CarryFrom(bs, lo, hi, hi, overlap)..hi]
  {
    carry := [];
    var carryLen := 0;
    var k := |current|;
    while k > 0
      invariant 0 <= k <= |current|
      invariant carry == bs[lo + k..hi] && carryLen == Size(bs, lo + k, hi)
      invariant CarryFrom(bs, lo, lo + k, hi, overlap) == CarryFrom(bs, lo, hi, hi, overlap)
    {
      var block := current[k - 1];
      assert block == bs[lo + k - 1];
      if carryLen + |block.text| > overlap {
        break;
      }
      carry := [block] + carry;
      carryLen := carryLen + |block.text|;
      k := k - 1;
    }
  }

  method ChunkBlocks(blocks: seq<TextBlock>, target: int, overlapRatio: real) returns (r: ChunkResult)
    ensures r == ChunkingOf(blocks, target, overlapRatio)
  {
    if target <= 0 {
      return Rejected(NonPositiveTarget);
    }
    if !(0.0 <= overlapRatio < 1.0) {
      return Rejected(RatioOutOfRange);
    }
    if blocks == [] {
      return Chunks([]);
    }
    var normalized := NormalizeBlocks(blocks, target);
    var overlap := OverlapChars(target, overlapRatio);
    var chunks, carry, index := [], [], 0;
    ghost var lo := 0;
    while index < |normalized|
      invariant 0 <= lo <= index <= |normalized| && carry == normalized[lo..index]
      invariant ChunksFrom(normalized, lo, index, target, overlap, chunks)
             == ChunksFrom(normalized, 0, 0, target, overlap, [])
    {
      var current;
      current, index := FillChunk(normalized, carry, index, target, lo);
      chunks := chunks + [BuildChunkSpec(current, |chunks|)];
      carry := [];
      if index < |normalized| && overlap > 0 {
        carry := CarryOver(current, overlap, normalized, lo, index);
      }
      lo := CarryStart(normalized, lo, index, overlap);
    }
    r := Chunks(chunks);
  }

  // ----- what the chunks are -----------------------------------------------

  /** The chunks are the specs of these windows, numbered in order. */
  predicate Describes(chunks: seq<ChunkSpec>, bs: seq<TextBlock>, ws: seq<Window>) {
    |chunks| == |ws| && forall i :: 0 <= i < |ws| ==> InBounds(bs, ws[i]) && chunks[i] == SpecOf(bs, ws[i], i)
  }

  lemma {:induction false} ChunksDescribeWindows(
    bs: seq<TextBlock>, lo: nat, mid: nat, target: nat, overlap: nat, chunks: seq<ChunkSpec>, ws: seq<Window>)
    requires lo <= mid <= |bs| && Describes(chunks, bs, ws)
    ensures Describes(ChunksFrom(bs, lo, mid, target, overlap, chunks), bs, WindowsFrom(bs, lo, mid, target, overlap, ws))
    decreases |bs| - mid
  {
    if mid < |bs| {
      var hi := NextEnd(bs, lo, mid, target);
      var w := Window(lo, mid, hi);
      ChunksDescribeWindows(bs, CarryStart(bs, lo, hi, overlap), hi, target, overlap,
                            chunks + [SpecOf(bs, w, |chunks|)], ws + [w]);
    }
  }

  /** The normalized blocks and the windows behind an accepted call. */
  lemma {:induction false} ChunkingWindows(blocks: seq<TextBlock>, target: int, overlapRatio: real)
    returns (bs: seq<TextBlock>, overlap: nat, ws: seq<Window>)
    requires target > 0 && 0.0 <= overlapRatio < 1.0
    ensures bs == Normalized(blocks, target) && overlap == OverlapChars(target, overlapRatio) < target
    ensures forall b <- bs :: |b.text| <= target
    ensures ws == Windows(bs, target, overlap) && IsWindowing(bs, ws, target, overlap)
    ensures Describes(ChunkingOf(blocks, target, overlapRatio).specs, bs, ws)
  {
    bs := Normalized(blocks, target);
    overlap := OverlapChars(target, overlapRatio);
    ws := Windows(bs, target, overlap);
    FloorOfProduct(target, overlapRatio);
    NormalizedFits(blocks, |blocks|, target);
    WindowsCharacterized(bs, ws, target, overlap);
    ChunksDescribeWindows(bs, 0, 0, target, overlap, [], []);
  }

  /** No text is lost: the new parts of all chunks carry exactly the input's non-blank characters, in order. */
  lemma {:induction false} ChunkingLosesNoText(blocks: seq<TextBlock>, target: int, overlapRatio: real)
    requires target > 0 && 0.0 <= overlapRatio < 1.0
    ensures ChunkingOf(blocks, target, overlapRatio).Chunks?
    ensures var bs := Normalized(blocks, target);
            BlocksInk(NewBlocks(bs, Windows(bs, target, OverlapChars(target, overlapRatio)))) == BlocksInk(blocks)
  {
    var bs, overlap, ws := ChunkingWindows(blocks, target, overlapRatio);
    WindowsCover(bs, ws, |bs|, |bs|, target, overlap);
    assert bs[..|bs|] == bs;
    NormalizedInk(blocks, |blocks|, target);
    assert blocks[..|blocks|] == blocks;
  }

  /** A target that is not positive is rejected first, then a ratio outside of the half-open unit interval; nothing else is. */
  lemma {:induction false} RejectedExactlyWhen(blocks: seq<TextBlock>, target: int, overlapRatio: real)
    ensures ChunkingOf(blocks, target, overlapRatio).Chunks? <==> target > 0 && overlapRatio >= 0.0 && overlapRatio < 1.0
    ensures ChunkingOf(blocks, target, overlapRatio) == Rejected(NonPositiveTarget) <==> target <= 0
  {
  }
}
