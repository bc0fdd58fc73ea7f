/**
 * The cursor arithmetic the VTT, PDF and DOCX parsers share: texts laid out one after the other, with two newlines
 * after each, and stripped as a whole at the end.
 */
module Layout {
  import opened Text
  import opened Blocks

  /** One text to lay out, with its labels. */
  datatype Entry = Entry(text: string, sectionPath: Option<string>, locationLabel: Option<string>)

  /** Where the cursor stands after `k` entries. */
  function Cursor(es: seq<Entry>, k: nat): nat
    requires k <= |es|
  {
    if k == 0 then 0 else Cursor(es, k - 1) + |es[k - 1].text| + 2
  }

  /** The concatenated text parts of the first `k` entries. */
  function Body(es: seq<Entry>, k: nat): string
    requires k <= |es|
  {
    if k == 0 then "" else Body(es, k - 1) + es[k - 1].text + "\n\n"
  }

  function BlockOf(es: seq<Entry>, k: nat): TextBlock
    requires k < |es|
  {
    TextBlock(es[k].text, Cursor(es, k), Cursor(es, k) + |es[k].text|, es[k].sectionPath, es[k].locationLabel)
  }

  /** One block per entry, at the cursor's position. */
  predicate IsLaidOut(bs: seq<TextBlock>, es: seq<Entry>) {
    |bs| == |es| && forall k :: 0 <= k < |es| ==> bs[k] == BlockOf(es, k)
  }

  /** The body without the newlines after the last of the first `k` entries. */
  function Core(es: seq<Entry>, k: nat): (s: string)
    requires 0 < k <= |es|
    ensures |s| == Cursor(es, k) - 2
  {
    if k == 1 then es[0].text else Core(es, k - 1) + "\n\n" + es[k - 1].text
  }

  lemma {:induction false} BodyIsCore(es: seq<Entry>, k: nat)
    requires 0 < k <= |es|
    ensures Body(es, k) == Core(es, k) + "\n\n"
  {
    if k == 1 {
      assert Body(es, 0) == "";
    } else {
      BodyIsCore(es, k - 1);
    }
  }

  lemma {:induction false} CoreStarts(es: seq<Entry>, k: nat)
    requires 0 < k <= |es| && es[0].text != ""
    ensures |Core(es, k)| > 0 && Core(es, k)[0] == es[0].text[0]
  {
    if k > 1 {
      CoreStarts(es, k - 1);
    }
  }

  lemma {:induction false} CoreEnds(es: seq<Entry>, k: nat)
    requires 0 < k <= |es| && es[k - 1].text != ""
    ensures |Core(es, k)| > 0 && Core(es, k)[|Core(es, k)| - 1] == es[k - 1].text[|es[k - 1].text| - 1]
  {
  }

  lemma {:induction false} ThreeParts(a: string, b: string, c: string)
    ensures var s, m, n := a + b + c, |a|, |a| + |b|; s[..m] == a && s[m..n] == b && s[n..] == c == s[n..|s|]
  {
  }

  /** The laid-out blocks are exact, two-newline-separated slices of the core. */
  lemma {:induction false} CoreAligned(bs: seq<TextBlock>, es: seq<Entry>, k: nat)
    requires IsLaidOut(bs, es) && 0 < k <= |es|
    ensures Aligned(bs[..k], Core(es, k)) && bs[k - 1].charEnd == |Core(es, k)|
  {
    assert bs[k - 1] == BlockOf(es, k - 1);
    if k == 1 {
      assert Core(es, 1)[0..|es[0].text|] == es[0].text;
    } else {
      var init, b := bs[..k - 1], bs[k - 1];
      CoreAligned(bs, es, k - 1);
      ThreeParts(Core(es, k - 1), "\n\n", b.text);
      AlignedInLonger(init, Core(es, k - 1), Core(es, k));
      AlignedSnoc(init, b, Core(es, k));
      assert bs[..k] == init + [b];
    }
  }

  /** The first entry starts, and the last one ends, with a non-blank character. */
  predicate TrimmedEnds(es: seq<Entry>)
    requires es != []
  {
    var first, last := es[0].text, es[|es| - 1].text;
    first != "" && last != "" && !IsSpace(first[0]) && !IsSpace(last[|last| - 1])
  }

  /** What the parsers store: the laid-out text, stripped. */
  function StoredText(es: seq<Entry>): string {
    Strip(Body(es, |es|))
  }

  /** With such ends, stripping removes exactly the newlines after the last entry. */
  lemma {:induction false} StoredIsCore(es: seq<Entry>)
    requires es != [] && TrimmedEnds(es)
    ensures StoredText(es) == Core(es, |es|)
  {
    BodyIsCore(es, |es|);
    CoreStarts(es, |es|);
    CoreEnds(es, |es|);
    StripAfter(Core(es, |es|), "\n\n");
  }

  /** Then all offsets are exact. */
  lemma {:induction false} TrimmedEndsAligned(bs: seq<TextBlock>, es: seq<Entry>)
    requires es != [] && IsLaidOut(bs, es) && TrimmedEnds(es)
    ensures StoredText(es) == Core(es, |es|)
    ensures Aligned(bs, StoredText(es))
  {
    StoredIsCore(es);
    CoreAligned(bs, es, |es|);
    assert bs[..|es|] == bs;
  }

  lemma {:induction false} ExactImpliesTrimmedEnds(bs: seq<TextBlock>, es: seq<Entry>)
    requires es != [] && IsLaidOut(bs, es) && es[0].text != "" && es[|es| - 1].text != ""
    requires IsSlice(bs[0], StoredText(es), 0) && IsSlice(bs[|es| - 1], StoredText(es), 0)
    ensures TrimmedEnds(es)
  {
    var n := |es|;
    BodyIsCore(es, n);
    CoreStarts(es, n);
    CoreEnds(es, n);
    assert bs[0] == BlockOf(es, 0) && bs[n - 1] == BlockOf(es, n - 1);
    assert StoredText(es)[0..|es[0].text|][0] == es[0].text[0];
    StrippedWhole(Core(es, n), StoredText(es));
  }

  /** If stripping a text and the newlines after it keeps the first character and the length, its ends are not blank. */
  lemma {:induction false} StrippedWhole(core: string, doc: string)
    requires core != "" && doc == Strip(core + "\n\n") && |doc| >= |core| && doc[0] == core[0]
    ensures !IsSpace(core[0]) && !IsSpace(core[|core| - 1])
  {
    var s := core + "\n\n";
    var lo, hi := StripSplits(s);
    if lo > 0 {
      BlankHead(s, lo);
    }
    assert doc[|doc| - 1] == s[hi - 1];
  }

  /**
   * The block-slice law: every block is the slice of the stored text that its offsets name if and only if
   * the first entry starts, and the last one ends, with a non-blank character.
   */
  lemma {:induction false} SliceLaw(bs: seq<TextBlock>, es: seq<Entry>)
    requires es != [] && IsLaidOut(bs, es) && forall e <- es :: e.text != ""
    ensures (forall b <- bs :: IsSlice(b, StoredText(es), 0)) <==> TrimmedEnds(es)
  {
    assert es[0] in es && es[|es| - 1] in es && bs[0] in bs && bs[|es| - 1] in bs;
    if TrimmedEnds(es) {
      TrimmedEndsAligned(bs, es);
    } else if forall b <- bs :: IsSlice(b, StoredText(es), 0) {
      ExactImpliesTrimmedEnds(bs, es);
    }
  }
}
