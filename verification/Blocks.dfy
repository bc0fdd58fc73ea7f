/**
 * Parser output: text blocks with character offsets, and the two ways they can cover a document, as exact slices two
 * newlines apart or as slices with only whitespace between them.
 */
module Blocks {
  import opened Text

  datatype TextBlock = TextBlock(
    text: string, charStart: nat, charEnd: nat,
    sectionPath: Option<string>, locationLabel: Option<string>)

  function Texts(bs: seq<TextBlock>): (ts: seq<string>)
    ensures |ts| == |bs|
    ensures forall i :: 0 <= i < |bs| ==> ts[i] == bs[i].text
  {
    seq(|bs|, i requires 0 <= i < |bs| => bs[i].text)
  }

  /** The non-blank characters of a run of blocks. */
  function BlocksInk(bs: seq<TextBlock>): string {
    if bs == [] then "" else BlocksInk(bs[..|bs| - 1]) + Ink(bs[|bs| - 1].text)
  }

  /** The text a chunk made of these blocks carries. */
  function Joined(bs: seq<TextBlock>): string {
    Join("\n\n", Texts(bs))
  }

  /** `b` is the slice of `doc` that its offsets name; `doc` starts at offset `base`. */
  predicate IsSlice(b: TextBlock, doc: string, base: nat) {
    base <= b.charStart <= b.charEnd <= base + |doc| && b.text == doc[b.charStart - base..b.charEnd - base]
  }

  /** The blocks are ordered, disjoint slices of `doc[lo..hi]`, and only whitespace lies between them. */
  ghost predicate Tiles(bs: seq<TextBlock>, doc: string, base: nat, lo: nat, hi: nat) {
    && lo <= hi <= |doc|
    && if bs == [] then Blank(doc[lo..hi])
       else
         var b := bs[|bs| - 1];
         && IsSlice(b, doc, base)
         && b.charEnd - base <= hi
         && Blank(doc[b.charEnd - base..hi])
         && Tiles(bs[..|bs| - 1], doc, base, lo, b.charStart - base)
  }

  /** Exact slices of `doc`, each separated from the next by exactly two newlines. */
  predicate Aligned(bs: seq<TextBlock>, doc: string) {
    && (forall i :: 0 <= i < |bs| ==> IsSlice(bs[i], doc, 0))
    && (forall i :: 0 < i < |bs| ==> bs[i].charStart == bs[i - 1].charEnd + 2
                                     && doc[bs[i - 1].charEnd..bs[i].charStart] == "\n\n")
  }

  lemma {:induction false} ConcatAssoc(a: string, b: string, c: string)
    ensures a + (b + c) == (a + b) + c
  {
  }

  lemma {:induction false} BlocksInkSnoc(bs: seq<TextBlock>, b: TextBlock)
    ensures BlocksInk(bs + [b]) == BlocksInk(bs) + Ink(b.text)
  {
    assert (bs + [b])[..|bs|] == bs;
  }

  lemma {:induction false} BlocksInkPrefix(bs: seq<TextBlock>, n: nat)
    requires 0 < n <= |bs|
    ensures BlocksInk(bs[..n]) == BlocksInk(bs[..n - 1]) + Ink(bs[n - 1].text)
  {
    assert bs[..n] == bs[..n - 1] + [bs[n - 1]];
    BlocksInkSnoc(bs[..n - 1], bs[n - 1]);
  }

  lemma {:induction false} BlocksInkConcat(xs: seq<TextBlock>, ys: seq<TextBlock>)
    ensures BlocksInk(xs + ys) == BlocksInk(xs) + BlocksInk(ys)
  {
    if ys == [] {
      assert xs + ys == xs;
    } else {
      var init, b := ys[..|ys| - 1], ys[|ys| - 1];
      BlocksInkConcat(xs, init);
      assert ys == init + [b] && xs + ys == (xs + init) + [b];
      BlocksInkSnoc(xs + init, b);
      BlocksInkSnoc(init, b);
      ConcatAssoc(BlocksInk(xs), BlocksInk(init), Ink(b.text));
    }
  }

  lemma {:induction false} JoinedSnoc(bs: seq<TextBlock>, last: TextBlock)
    requires bs != []
    ensures Joined(bs + [last]) == Joined(bs) + "\n\n" + last.text
  {
    assert Texts(bs + [last]) == Texts(bs) + [last.text];
    JoinSnoc("\n\n", Texts(bs), last.text);
  }

  /** Joining adds only whitespace. */
  lemma {:induction false} JoinedInk(bs: seq<TextBlock>)
    ensures Ink(Joined(bs)) == BlocksInk(bs)
  {
    if |bs| > 1 {
      var init, last := bs[..|bs| - 1], bs[|bs| - 1];
      assert bs == init + [last];
      JoinedInk(init);
      JoinedSnoc(init, last);
      InkConcat(Joined(init) + "\n\n", last.text);
      InkConcat(Joined(init), "\n\n");
      InkBlank("\n\n");
    } else if |bs| == 1 {
      assert BlocksInk(bs[..0]) == "";
    }
  }

  lemma {:induction false} InkCut(s: string, lo: nat, mid: nat, hi: nat)
    requires lo <= mid <= hi <= |s|
    ensures Ink(s[lo..hi]) == Ink(s[lo..mid]) + Ink(s[mid..hi])
  {
    InkConcat(s[lo..mid], s[mid..hi]);
    assert s[lo..hi] == s[lo..mid] + s[mid..hi];
  }

  /** Tiling blocks carry all of the tiled text except whitespace. */
  lemma {:induction false} TilesInk(bs: seq<TextBlock>, doc: string, base: nat, lo: nat, hi: nat)
    requires Tiles(bs, doc, base, lo, hi)
    ensures BlocksInk(bs) == Ink(doc[lo..hi])
  {
    if bs == [] {
      InkBlank(doc[lo..hi]);
    } else {
      var b := bs[|bs| - 1];
      var s, e := b.charStart - base, b.charEnd - base;
      InkUpToBlank(doc, lo, s, e, hi);
      TilesInk(bs[..|bs| - 1], doc, base, lo, s);
      assert b.text == doc[s..e];
    }
  }

  lemma {:induction false} InkUpToBlank(doc: string, lo: nat, s: nat, e: nat, hi: nat)
    requires lo <= s <= e <= hi <= |doc| && Blank(doc[e..hi])
    ensures Ink(doc[lo..hi]) == Ink(doc[lo..s]) + Ink(doc[s..e])
  {
    InkCut(doc, lo, s, hi);
    InkCut(doc, s, e, hi);
    InkBlank(doc[e..hi]);
  }

  lemma {:induction false} BlankCut(s: string, lo: nat, mid: nat, hi: nat)
    requires lo <= mid <= hi <= |s| && Blank(s[lo..mid]) && Blank(s[mid..hi])
    ensures Blank(s[lo..hi])
  {
    InkBlank(s[lo..mid]);
    InkBlank(s[mid..hi]);
    InkCut(s, lo, mid, hi);
    InkBlank(s[lo..hi]);
  }

  lemma {:induction false} SliceOfSlice(s: string, at: nat, end: nat, i: nat, j: nat)
    requires at <= end <= |s| && i <= j <= end - at
    ensures s[at..end][i..j] == s[at + i..at + j]
  {
    var l, r := s[at..end][i..j], s[at + i..at + j];
    assert |l| == |r| && forall k :: 0 <= k < |l| ==> l[k] == s[at + i + k] == r[k];
  }

  lemma {:induction false} TilesSnoc(init: seq<TextBlock>, b: TextBlock, doc: string, base: nat, lo: nat, hi: nat)
    requires IsSlice(b, doc, base) && b.charEnd - base <= hi <= |doc| && Blank(doc[b.charEnd - base..hi])
    requires Tiles(init, doc, base, lo, b.charStart - base)
    ensures Tiles(init + [b], doc, base, lo, hi)
  {
    assert (init + [b])[..|init|] == init;
  }

  lemma {:induction false} TilesSingle(b: TextBlock, doc: string, base: nat, hi: nat)
    requires IsSlice(b, doc, base) && b.charEnd - base <= hi <= |doc| && Blank(doc[b.charEnd - base..hi])
    ensures Tiles([b], doc, base, b.charStart - base, hi)
  {
    assert Tiles([], doc, base, b.charStart - base, b.charStart - base);
    assert [b][..0] == [];
  }

  lemma {:induction false} TilesOne(b: TextBlock, doc: string)
    requires IsSlice(b, doc, 0)
    ensures Tiles([b], doc, 0, b.charStart, b.charEnd)
  {
    TilesSingle(b, doc, 0, b.charEnd);
  }

  lemma {:induction false} TilesPad(bs: seq<TextBlock>, doc: string, base: nat, lo: nat, mid: nat, hi: nat)
    requires Tiles(bs, doc, base, lo, mid) && mid <= hi <= |doc| && Blank(doc[mid..hi])
    ensures Tiles(bs, doc, base, lo, hi)
  {
    BlankCut(doc, if bs == [] then lo else bs[|bs| - 1].charEnd - base, mid, hi);
  }

  lemma {:induction false} TilesConcat(xs: seq<TextBlock>, ys: seq<TextBlock>, doc: string, base: nat, lo: nat, mid: nat, hi: nat)
    requires Tiles(xs, doc, base, lo, mid) && Tiles(ys, doc, base, mid, hi)
    ensures Tiles(xs + ys, doc, base, lo, hi)
    decreases |ys|
  {
    if ys == [] {
      TilesPad(xs, doc, base, lo, mid, hi);
      assert xs + ys == xs;
    } else {
      var init, b := ys[..|ys| - 1], ys[|ys| - 1];
      TilesConcat(xs, init, doc, base, lo, mid, b.charStart - base);
      TilesSnoc(xs + init, b, doc, base, lo, hi);
      ConcatSnoc(xs, ys);
    }
  }

  lemma {:induction false} ConcatSnoc(xs: seq<TextBlock>, ys: seq<TextBlock>)
    requires ys != []
    ensures xs + ys == (xs + ys[..|ys| - 1]) + [ys[|ys| - 1]]
  {
  }

  /** Blocks that tile one block's text tile the place of that block in the document. */
  lemma {:induction false} TilesRebase(bs: seq<TextBlock>, b: TextBlock, doc: string, lo: nat, hi: nat)
    requires IsSlice(b, doc, 0) && Tiles(bs, b.text, b.charStart, lo, hi)
    ensures Tiles(bs, doc, 0, b.charStart + lo, b.charStart + hi)
  {
    if bs == [] {
      BlankRebase(b, doc, lo, hi);
    } else {
      var c := bs[|bs| - 1];
      TilesRebase(bs[..|bs| - 1], b, doc, lo, c.charStart - b.charStart);
      SliceRebase(c, b, doc);
      BlankRebase(b, doc, c.charEnd - b.charStart, hi);
    }
  }

  lemma {:induction false} SliceRebase(c: TextBlock, b: TextBlock, doc: string)
    requires IsSlice(b, doc, 0) && IsSlice(c, b.text, b.charStart)
    ensures IsSlice(c, doc, 0)
  {
    SliceOfSlice(doc, b.charStart, b.charEnd, c.charStart - b.charStart, c.charEnd - b.charStart);
  }

  lemma {:induction false} BlankRebase(b: TextBlock, doc: string, lo: nat, hi: nat)
    requires IsSlice(b, doc, 0) && lo <= hi <= |b.text| && Blank(b.text[lo..hi])
    ensures b.charStart + hi <= |doc| && Blank(doc[b.charStart + lo..b.charStart + hi])
  {
    SliceOfSlice(doc, b.charStart, b.charEnd, lo, hi);
  }

  lemma {:induction false} TilesRebaseWhole(bs: seq<TextBlock>, b: TextBlock, doc: string)
    requires IsSlice(b, doc, 0) && Tiles(bs, b.text, b.charStart, 0, |b.text|)
    ensures Tiles(bs, doc, 0, b.charStart, b.charEnd)
  {
    TilesRebase(bs, b, doc, 0, |b.text|);
  }

  lemma {:induction false} TilesPrefix(bs: seq<TextBlock>, n: nat, doc: string, base: nat, lo: nat, hi: nat)
    requires n < |bs| && Tiles(bs, doc, base, lo, hi)
    ensures IsSlice(bs[n], doc, base) && bs[n].charEnd - base <= hi
    ensures Tiles(bs[..n], doc, base, lo, bs[n].charStart - base)
    decreases |bs|
  {
    if n < |bs| - 1 {
      TilesPrefix(bs[..|bs| - 1], n, doc, base, lo, bs[|bs| - 1].charStart - base);
      assert bs[..|bs| - 1][..n] == bs[..n];
    }
  }

  lemma {:induction false} TilesSuffix(bs: seq<TextBlock>, n: nat, doc: string, base: nat, lo: nat, hi: nat)
    requires n < |bs| && Tiles(bs, doc, base, lo, hi)
    ensures IsSlice(bs[n], doc, base) && Tiles(bs[n..], doc, base, bs[n].charStart - base, hi)
    decreases |bs|
  {
    var m := |bs| - 1;
    if n < m {
      TilesSuffix(bs[..m], n, doc, base, lo, bs[m].charStart - base);
      WindowSnoc(bs, n, m);
      TilesSnoc(bs[n..m], bs[m], doc, base, bs[n].charStart - base, hi);
    } else {
      assert bs[n..] == [bs[m]];
      TilesSingle(bs[m], doc, base, hi);
    }
  }

  lemma {:induction false} WindowSnoc(bs: seq<TextBlock>, n: nat, m: nat)
    requires n <= m < |bs| && m == |bs| - 1
    ensures bs[..m][n..] == bs[n..m] && bs[n..] == bs[n..m] + [bs[m]]
  {
  }

  lemma {:induction false} WindowOfPrefix(bs: seq<TextBlock>, i: nat, j: nat)
    requires i <= j <= |bs|
    ensures bs[..j][i..] == bs[i..j] && (j == |bs| ==> bs[i..j] == bs[i..])
  {
  }

  lemma {:induction false} TilesBetween(bs: seq<TextBlock>, doc: string, base: nat, lo: nat, hi: nat, i: nat, j: nat)
    returns (e: nat)
    requires i < j <= |bs| && Tiles(bs, doc, base, lo, hi)
    ensures IsSlice(bs[i], doc, base)
    ensures e <= |doc| && Tiles(bs[i..j], doc, base, bs[i].charStart - base, e)
  {
    WindowOfPrefix(bs, i, j);
    if j < |bs| {
      TilesPrefix(bs, j, doc, base, lo, hi);
      e := bs[j].charStart - base;
      TilesSuffix(bs[..j], i, doc, base, lo, e);
    } else {
      e := hi;
      TilesSuffix(bs, i, doc, base, lo, hi);
    }
  }

  /** The joined text of some blocks and the span they cite agree up to whitespace. */
  ghost predicate CitesInk(w: seq<TextBlock>, doc: string, base: nat)
    requires w != []
  {
    && IsSlice(w[0], doc, base) && IsSlice(w[|w| - 1], doc, base)
    && w[0].charStart <= w[|w| - 1].charEnd
    && Ink(Joined(w)) == Ink(doc[w[0].charStart - base..w[|w| - 1].charEnd - base])
  }

  /** So do all windows of tiling blocks. */
  lemma {:induction false} TilesWindow(bs: seq<TextBlock>, doc: string, base: nat, lo: nat, hi: nat, i: nat, j: nat)
    requires i < j <= |bs| && Tiles(bs, doc, base, lo, hi)
    ensures CitesInk(bs[i..j], doc, base)
  {
    var e := TilesBetween(bs, doc, base, lo, hi, i, j);
    TilesSpan(bs[i..j], doc, base, e);
  }

  lemma {:induction false} TilesSpan(w: seq<TextBlock>, doc: string, base: nat, hi: nat)
    requires w != [] && IsSlice(w[0], doc, base)
    requires Tiles(w, doc, base, w[0].charStart - base, hi)
    ensures CitesInk(w, doc, base)
  {
    var lo, e := w[0].charStart - base, w[|w| - 1].charEnd - base;
    TilesLast(w, doc, base, lo, hi);
    TilesInk(w, doc, base, lo, hi);
    InkUpToBlank(doc, lo, e, e, hi);
    InkBlank(doc[e..e]);
    JoinedInk(w);
  }

  lemma {:induction false} TilesLast(w: seq<TextBlock>, doc: string, base: nat, lo: nat, hi: nat)
    requires w != [] && Tiles(w, doc, base, lo, hi)
    ensures var b := w[|w| - 1];
            && IsSlice(b, doc, base) && lo <= b.charStart - base && b.charEnd - base <= hi <= |doc|
            && Blank(doc[b.charEnd - base..hi])
  {
    assert Tiles(w[..|w| - 1], doc, base, lo, w[|w| - 1].charStart - base);
  }

  /** Over aligned blocks the joined text is exactly the cited span. */
  lemma {:induction false} AlignedWindow(bs: seq<TextBlock>, doc: string, i: nat, j: nat)
    requires i < j <= |bs| && Aligned(bs, doc)
    ensures bs[i].charStart <= bs[j - 1].charEnd <= |doc|
    ensures Joined(bs[i..j]) == doc[bs[i].charStart..bs[j - 1].charEnd]
    decreases j
  {
    if i == j - 1 {
      JoinedOne(bs, i);
    } else {
      AlignedWindow(bs, doc, i, j - 1);
      JoinedGrows(bs, i, j);
      ThreeSlices(doc, bs[i].charStart, bs[j - 2].charEnd, bs[j - 1].charStart, bs[j - 1].charEnd);
    }
  }

  lemma {:induction false} JoinedOne(bs: seq<TextBlock>, i: nat)
    requires i < |bs|
    ensures Joined(bs[i..i + 1]) == bs[i].text
  {
    assert Texts(bs[i..i + 1]) == [bs[i].text];
  }

  lemma {:induction false} JoinedGrows(bs: seq<TextBlock>, i: nat, j: nat)
    requires i < j - 1 && j <= |bs|
    ensures Joined(bs[i..j]) == Joined(bs[i..j - 1]) + "\n\n" + bs[j - 1].text
  {
    assert bs[i..j] == bs[i..j - 1] + [bs[j - 1]];
    JoinedSnoc(bs[i..j - 1], bs[j - 1]);
  }

  lemma {:induction false} ThreeSlices(s: string, a: nat, b: nat, c: nat, d: nat)
    requires a <= b <= c <= d <= |s|
    ensures s[a..d] == s[a..b] + s[b..c] + s[c..d]
  {
  }

  lemma {:induction false} AlignedInLonger(bs: seq<TextBlock>, doc: string, all: string)
    requires Aligned(bs, doc) && |doc| <= |all| && all[..|doc|] == doc
    ensures Aligned(bs, all)
  {
    forall i, j | 0 <= i <= j <= |doc| ensures all[i..j] == doc[i..j] {
      assert all[0..|doc|] == doc;
      SliceOfSlice(all, 0, |doc|, i, j);
    }
  }

  lemma {:induction false} AlignedSnoc(bs: seq<TextBlock>, b: TextBlock, doc: string)
    requires bs != [] && Aligned(bs, doc) && IsSlice(b, doc, 0)
    requires bs[|bs| - 1].charEnd + 2 == b.charStart && doc[bs[|bs| - 1].charEnd..b.charStart] == "\n\n"
    ensures Aligned(bs + [b], doc)
  {
    assert forall i :: 0 <= i < |bs| ==> (bs + [b])[i] == bs[i];
  }

  lemma {:induction false} AlignedInit(bs: seq<TextBlock>, doc: string)
    requires |bs| > 1 && Aligned(bs, doc)
    ensures var n := |bs| - 1;
            && Aligned(bs[..n], doc) && IsSlice(bs[n], doc, 0)
            && bs[n - 1].charEnd <= bs[n].charStart <= |doc| && Blank(doc[bs[n - 1].charEnd..bs[n].charStart])
  {
    assert forall i :: 0 <= i < |bs| - 1 ==> bs[..|bs| - 1][i] == bs[i];
  }

  /** Aligned blocks tile the document from the first block's start to the last block's end. */
  lemma {:induction false} AlignedTiles(bs: seq<TextBlock>, doc: string)
    requires bs != [] && Aligned(bs, doc)
    ensures Tiles(bs, doc, 0, bs[0].charStart, bs[|bs| - 1].charEnd)
  {
    var n := |bs| - 1;
    if n == 0 {
      TilesOne(bs[0], doc);
      assert bs == [bs[0]];
    } else {
      var lo, e := bs[0].charStart, bs[n - 1].charEnd;
      AlignedInit(bs, doc);
      AlignedTiles(bs[..n], doc);
      TilesPad(bs[..n], doc, 0, lo, e, bs[n].charStart);
      TilesSnoc(bs[..n], bs[n], doc, 0, lo, bs[n].charEnd);
      assert bs == bs[..n] + [bs[n]];
    }
  }
}
