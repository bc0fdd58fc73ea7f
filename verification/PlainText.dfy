/** The plain-text and Markdown parser: paragraphs as exact slices of the text, under their headings. */
module PlainText {
  import opened Text
  import opened Blocks
  import opened Splitting
  import opened Chunking
  import opened Citations
  import opened Parsers
  import opened Selections

  function SkipBlanks(text: string, i: nat): (j: nat)
    requires i <= |text|
    ensures i <= j <= |text|
    decreases |text| - i
  {
    if i < |text| && (text[i] == ' ' || text[i] == '\t') then SkipBlanks(text, i + 1) else i
  }

  function SkipNewlines(text: string, i: nat): (j: nat)
    requires i <= |text|
    ensures i <= j <= |text|
    decreases |text| - i
  {
    if i < |text| && text[i] == '\n' then SkipNewlines(text, i + 1) else i
  }

  /** Where a paragraph break that starts at `i` ends; `i` itself when none does. */
  function BreakEnd(text: string, i: nat): (j: nat)
    requires i < |text|
    ensures i <= j <= |text|
  {
    if text[i] != '\n' then i
    else
      var j := SkipBlanks(text, i + 1);
      if j < |text| && text[j] == '\n' then SkipNewlines(text, j) else i
  }

  function LineNumber(text: string, offset: nat): nat
    requires offset <= |text|
  {
    if offset == 0 then 1 else LineNumber(text, offset - 1) + if text[offset - 1] == '\n' then 1 else 0
  }

  function NewlineTest(): char -> bool {
    (c: char) => c == '\n'
  }

  /** The line number counts the newlines before. */
  lemma {:induction false} LineNumbersCount(text: string, offset: nat)
    requires offset <= |text|
    ensures LineNumber(text, offset) == 1 + |Filtered(text, offset, NewlineTest())|
  {
    if offset > 0 {
      LineNumbersCount(text, offset - 1);
    }
  }

  function Paragraph(text: string, lo: nat, hi: nat): TextBlock
    requires lo <= hi <= |text|
  {
    TextBlock(text[lo..hi], lo, hi, None, Some("line " + Numeral(LineNumber(text, lo))))
  }

  function KeepParagraph(text: string, lo: nat, hi: nat, parts: seq<TextBlock>): seq<TextBlock>
    requires lo <= hi <= |text|
  {
    if Blank(text[lo..hi]) then parts else parts + [Paragraph(text, lo, hi)]
  }

  /** `parts`, followed by the paragraphs from the one that starts at `pos`; no break starts in `pos..i`. */
  function ParagraphsFrom(text: string, pos: nat, i: nat, parts: seq<TextBlock>): seq<TextBlock>
    requires pos <= i <= |text|
    decreases |text| - i
  {
    if i == |text| then KeepParagraph(text, pos, i, parts)
    else if BreakEnd(text, i) > i then
      ParagraphsFrom(text, BreakEnd(text, i), BreakEnd(text, i), KeepParagraph(text, pos, i, parts))
    else ParagraphsFrom(text, pos, i + 1, parts)
  }

  // ----- Markdown headings -------------------------------------------------

  function SkipHashes(s: string, i: nat): (j: nat)
    requires i <= |s|
    ensures i <= j <= |s|
    decreases |s| - i
  {
    if i < |s| && s[i] == '#' then SkipHashes(s, i + 1) else i
  }

  /** The text of a paragraph that is one ATX heading line: up to six `#`, whitespace, and a rest on one line. */
  function HeadingOf(paragraph: string): Option<string> {
    var s := Strip(paragraph);
    var level := SkipHashes(s, 0);
    var rest := LStrip(s[level..]);
    if 1 <= level <= 6 && |rest| < |s| - level && '\n' !in rest then Some(Strip(rest)) else None
  }

  function HeadingAt(bs: seq<TextBlock>, k: nat, markdown: bool): Option<string>
    requires k < |bs|
  {
    if markdown then HeadingOf(bs[k].text) else None
  }

  /** The last heading among the first `n` paragraphs. */
  function CurrentHeading(bs: seq<TextBlock>, n: nat, markdown: bool): Option<string>
    requires n <= |bs|
  {
    if n == 0 then None
    else if HeadingAt(bs, n - 1, markdown).Some? then HeadingAt(bs, n - 1, markdown)
    else CurrentHeading(bs, n - 1, markdown)
  }

  function SectionPathAt(bs: seq<TextBlock>, k: nat, markdown: bool): Option<string>
    requires k < |bs|
  {
    var own, above := HeadingAt(bs, k, markdown), CurrentHeading(bs, k, markdown);
    if own.Some? then Some("heading: " + own.value)
    else if above.Some? && above.value != "" then Some("under: " + above.value)
    else None
  }

  /** The first `n` paragraphs with their section paths. */
  function Labelled(bs: seq<TextBlock>, n: nat, markdown: bool): seq<TextBlock>
    requires n <= |bs|
  {
    if n == 0 then [] else Labelled(bs, n - 1, markdown) + [bs[n - 1].(sectionPath := SectionPathAt(bs, n - 1, markdown))]
  }

  function PlainTextResult(text: string, markdown: bool): ParseResult {
    if Blank(text) then Empty
    else
      var paragraphs := ParagraphsFrom(text, 0, 0, []);
      Parsed(text, Labelled(paragraphs, |paragraphs|, markdown))
  }

  method SplitParagraphs(text: string) returns (paragraphs: seq<TextBlock>)
    ensures paragraphs == ParagraphsFrom(text, 0, 0, [])
  {
    paragraphs := [];
    var pos, i := 0, 0;
    while i < |text|
      invariant 0 <= pos <= i <= |text|
      invariant ParagraphsFrom(text, pos, i, paragraphs) == ParagraphsFrom(text, 0, 0, [])
      decreases |text| - i
    {
      var end := BreakEnd(text, i);
      if end > i {
        if !Blank(text[pos..i]) {
          paragraphs := paragraphs + [Paragraph(text, pos, i)];
        }
        pos, i := end, end;
      } else {
        i := i + 1;
      }
    }
    if !Blank(text[pos..]) {
      paragraphs := paragraphs + [Paragraph(text, pos, |text|)];
    }
    assert text[pos..] == text[pos..|text|];
  }

  method ParsePlainText(text: string, markdown: bool) returns (r: ParseResult)
    ensures r == PlainTextResult(text, markdown)
  {
    if Blank(text) {
      return Empty;
    }
    var paragraphs := SplitParagraphs(text);
    var blocks, currentHeading := [], None;
    for k := 0 to |paragraphs|
      invariant currentHeading == CurrentHeading(paragraphs, k, markdown)
      invariant blocks == Labelled(paragraphs, k, markdown)
    {
      var heading := if markdown then HeadingOf(paragraphs[k].text) else None;
      var sectionPath := None;
      if heading.Some? {
        currentHeading := heading;
        sectionPath := Some("heading: " + heading.value);
      } else if currentHeading.Some? && currentHeading.value != "" {
        sectionPath := Some("under: " + currentHeading.value);
      }
      blocks := blocks + [paragraphs[k].(sectionPath := sectionPath)];
    }
    r := Parsed(text, blocks);
  }

  /** A heading applies until the next one: the current heading is the nearest one above. */
  lemma {:induction false} CurrentIsNearest(bs: seq<TextBlock>, n: nat, markdown: bool, j: nat)
    requires j < n <= |bs| && HeadingAt(bs, j, markdown).Some?
    requires forall m :: j < m < n ==> HeadingAt(bs, m, markdown).None?
    ensures CurrentHeading(bs, n, markdown) == HeadingAt(bs, j, markdown)
  {
    if j < n - 1 {
      CurrentIsNearest(bs, n - 1, markdown, j);
    }
  }

  lemma {:induction false} NoHeadingAbove(bs: seq<TextBlock>, n: nat, markdown: bool)
    requires n <= |bs| && forall m :: 0 <= m < n ==> HeadingAt(bs, m, markdown).None?
    ensures CurrentHeading(bs, n, markdown).None?
  {
    if n > 0 {
      NoHeadingAbove(bs, n - 1, markdown);
    }
  }

  lemma {:induction false} SkipHashesStops(s: string, i: nat)
    requires i <= |s|
    ensures var j := SkipHashes(s, i); (forall k :: i <= k < j ==> s[k] == '#') && (j < |s| ==> s[j] != '#')
    decreases |s| - i
  {
    if i < |s| && s[i] == '#' {
      SkipHashesStops(s, i + 1);
    }
  }

  /** `level` marks, at least one whitespace character, and then nothing that breaks the line. */
  predicate IsHeadingLine(s: string, level: nat, k: nat) {
    && 1 <= level <= 6 && level < k <= |s|
    && (forall i :: 0 <= i < level ==> s[i] == '#')
    && Blank(s[level..k]) && '\n' !in s[k..]
  }

  /** A paragraph is a heading exactly when, stripped, it is such a line; its text is what follows the marks. */
  lemma {:induction false} HeadingExactlyWhen(paragraph: string)
    ensures HeadingOf(paragraph).Some? <==> exists level: nat, k: nat :: IsHeadingLine(Strip(paragraph), level, k)
    ensures forall level: nat, k: nat :: IsHeadingLine(Strip(paragraph), level, k) ==>
              HeadingOf(paragraph).Some? && HeadingOf(paragraph).value == Strip(Strip(paragraph)[level..])
  {
    var s := Strip(paragraph);
    if HeadingOf(paragraph).Some? {
      var k := LineOfHeading(paragraph);
    }
    forall level: nat, k: nat | IsHeadingLine(s, level, k)
      ensures HeadingOf(paragraph).Some? && HeadingOf(paragraph).value == Strip(s[level..])
    {
      HeadingOfLine(paragraph, level, k);
    }
  }

  lemma {:induction false} LineOfHeading(paragraph: string) returns (k: nat)
    requires HeadingOf(paragraph).Some?
    ensures IsHeadingLine(Strip(paragraph), SkipHashes(Strip(paragraph), 0), k)
  {
    var s := Strip(paragraph);
    var n := SkipHashes(s, 0);
    SkipHashesStops(s, 0);
    LStripSplits(s[n..]);
    k := |s| - |LStrip(s[n..])|;
    assert s[n..][..k - n] == s[n..k] && s[n..][k - n..] == s[k..];
  }

  lemma {:induction false} HeadingOfLine(paragraph: string, level: nat, k: nat)
    requires IsHeadingLine(Strip(paragraph), level, k)
    ensures HeadingOf(paragraph).Some? && HeadingOf(paragraph).value == Strip(Strip(paragraph)[level..])
  {
    var s := Strip(paragraph);
    SkipHashesStops(s, 0);
    assert s[level..k][0] == s[level];
    assert level == SkipHashes(s, 0);
    HeadingFound(s, level, k);
    StripOfLStrip(s[level..]);
  }

  lemma {:induction false} StripOfLStrip(s: string)
    ensures Strip(LStrip(s)) == Strip(s)
  {
    LStripSplits(s);
    LStripTwice(LStrip(s));
  }

  lemma {:induction false} LStripTwice(s: string)
    requires s != "" ==> !IsSpace(s[0])
    ensures LStrip(s) == s
  {
  }

  lemma {:induction false} HeadingFound(s: string, n: nat, k: nat)
    requires IsHeadingLine(s, n, k)
    ensures |LStrip(s[n..])| < |s| - n && '\n' !in LStrip(s[n..])
  {
    assert s[n..][..k - n] == s[n..k] && s[n..][k - n..] == s[k..];
    LStripSkips(s[n..], k - n);
    var rest := LStrip(s[n..]);
    LStripSplits(s[n..]);
    forall i | 0 <= i < |rest| ensures rest[i] != '\n' {
      assert rest[i] == s[k..][|s[k..]| - |rest| + i];
    }
  }

  lemma {:induction false} LStripSkips(s: string, n: nat)
    requires n <= |s| && Blank(s[..n])
    ensures |LStrip(s)| <= |s| - n
    decreases n
  {
    if n > 0 {
      BlankHead(s, n);
      assert s[1..][..n - 1] == s[..n][1..];
      LStripSkips(s[1..], n - 1);
    } else {
      LStripSplits(s);
    }
  }

  /** A heading always says something, so the paragraphs under it carry its text. */
  lemma {:induction false} HeadingsAreNotEmpty(paragraph: string)
    requires HeadingOf(paragraph).Some?
    ensures HeadingOf(paragraph).value != ""
  {
    var s := Strip(paragraph);
    var level := SkipHashes(s, 0);
    var _, _ := StripSplits(paragraph);
    LStripSplits(s[level..]);
    var rest := LStrip(s[level..]);
    assert s[|s| - 1] == s[level..][|s| - level - 1];
    if rest != "" {
      var _, _ := StripSplits(rest);
    }
  }

  lemma {:induction false} LabelledAt(bs: seq<TextBlock>, n: nat, markdown: bool, k: nat)
    requires k < n <= |bs|
    ensures |Labelled(bs, n, markdown)| == n
    ensures Labelled(bs, n, markdown)[k] == bs[k].(sectionPath := SectionPathAt(bs, k, markdown))
    decreases n
  {
    if k < n - 1 {
      LabelledAt(bs, n - 1, markdown, k);
    } else {
      LabelledLength(bs, n - 1, markdown);
    }
  }

  lemma {:induction false} LabelledLength(bs: seq<TextBlock>, n: nat, markdown: bool)
    requires n <= |bs|
    ensures |Labelled(bs, n, markdown)| == n
  {
    if n > 0 {
      LabelledLength(bs, n - 1, markdown);
    }
  }

  /**
   * Every paragraph of a Markdown document names its section: a heading itself, any other one the nearest heading
   * above it, and none when there is no heading above.
   */
  lemma {:induction false} SectionsFollowHeadings(text: string, k: nat)
    requires PlainTextResult(text, true).Parsed? && k < |PlainTextResult(text, true).blocks|
    ensures var bs := PlainTextResult(text, true).blocks;
            && (HeadingOf(bs[k].text).Some? ==> bs[k].sectionPath == Some("heading: " + HeadingOf(bs[k].text).value))
            && (forall j :: 0 <= j < k && HeadingOf(bs[j].text).Some?
                  && (forall m :: j < m <= k ==> HeadingOf(bs[m].text).None?)
                  ==> bs[k].sectionPath == Some("under: " + HeadingOf(bs[j].text).value))
            && ((forall m :: 0 <= m <= k ==> HeadingOf(bs[m].text).None?) ==> bs[k].sectionPath.None?)
  {
    var ps, bs := ParagraphsFrom(text, 0, 0, []), PlainTextResult(text, true).blocks;
    LabelledLength(ps, |ps|, true);
    forall m | 0 <= m < |ps| ensures bs[m].text == ps[m].text {
      LabelledAt(ps, |ps|, true, m);
    }
    LabelledAt(ps, |ps|, true, k);
    forall j | 0 <= j < k && HeadingOf(bs[j].text).Some? && (forall m :: j < m <= k ==> HeadingOf(bs[m].text).None?)
      ensures bs[k].sectionPath == Some("under: " + HeadingOf(bs[j].text).value)
    {
      CurrentIsNearest(ps, k, true, j);
      HeadingsAreNotEmpty(bs[j].text);
    }
    if forall m :: 0 <= m <= k ==> HeadingOf(bs[m].text).None? {
      NoHeadingAbove(ps, k, true);
    }
  }

  lemma {:induction false} LabelledTiles(bs: seq<TextBlock>, n: nat, markdown: bool, doc: string, lo: nat, hi: nat)
    requires n <= |bs| && Tiles(bs[..n], doc, 0, lo, hi)
    ensures Tiles(Labelled(bs, n, markdown), doc, 0, lo, hi)
  {
    if n > 0 {
      assert bs[..n][..n - 1] == bs[..n - 1];
      LabelledTiles(bs, n - 1, markdown, doc, lo, bs[n - 1].charStart);
      TilesSnoc(Labelled(bs, n - 1, markdown), bs[n - 1].(sectionPath := SectionPathAt(bs, n - 1, markdown)), doc, 0, lo, hi);
    }
  }

  /** The blocks of a parsed text tile it, and none is blank. */
  lemma {:induction false} ParsedTextTiles(text: string, markdown: bool)
    requires PlainTextResult(text, markdown).Parsed?
    ensures var blocks := PlainTextResult(text, markdown).blocks; Tiles(blocks, text, 0, 0, |text|) && NonBlank(blocks)
  {
    var ps := ParagraphsFrom(text, 0, 0, []);
    ParagraphsTile(text, 0, 0, []);
    ParagraphsNonBlank(text, 0, 0, []);
    assert ps[..|ps|] == ps;
    LabelledTiles(ps, |ps|, markdown, text, 0, |text|);
    LabelledLength(ps, |ps|, markdown);
    forall k | 0 <= k < |ps| ensures !Blank(Labelled(ps, |ps|, markdown)[k].text) {
      LabelledAt(ps, |ps|, markdown, k);
    }
  }

  /** Only a blank text is refused; any other has a paragraph, and its paragraphs keep all of its text. */
  lemma {:induction false} PlainTextRefusedExactlyWhen(text: string, markdown: bool)
    ensures var r := PlainTextResult(text, markdown);
            && (r.Parsed? <==> Ink(text) != "") && (r.Empty? <==> Ink(text) == "")
            && (r.Parsed? ==> r.text == text && r.blocks != [] && BlocksInk(r.blocks) == Ink(text))
  {
    InkBlank(text);
    if !Blank(text) {
      ParsedTextTiles(text, markdown);
      TilesInk(PlainTextResult(text, markdown).blocks, text, 0, 0, |text|);
      assert text[0..|text|] == text;
    }
  }

  // ----- paragraphs tile the text ------------------------------------------

  lemma {:induction false} SkipBlanksBlank(text: string, i: nat)
    requires i <= |text|
    ensures Blank(text[i..SkipBlanks(text, i)])
    decreases |text| - i
  {
    if i < |text| && (text[i] == ' ' || text[i] == '\t') {
      SkipBlanksBlank(text, i + 1);
      BlankCut(text, i, i + 1, SkipBlanks(text, i));
    }
  }

  lemma {:induction false} SkipNewlinesBlank(text: string, i: nat)
    requires i <= |text|
    ensures Blank(text[i..SkipNewlines(text, i)])
    decreases |text| - i
  {
    if i < |text| && text[i] == '\n' {
      SkipNewlinesBlank(text, i + 1);
      BlankCut(text, i, i + 1, SkipNewlines(text, i));
    }
  }

  lemma {:induction false} BreakBlank(text: string, i: nat)
    requires i < |text|
    ensures Blank(text[i..BreakEnd(text, i)])
  {
    if BreakEnd(text, i) > i {
      var j := SkipBlanks(text, i + 1);
      SkipBlanksBlank(text, i + 1);
      SkipNewlinesBlank(text, j);
      BlankCut(text, i, i + 1, j);
      BlankCut(text, i, j, BreakEnd(text, i));
    }
  }

  predicate IsBlankChar(c: char) {
    c == ' ' || c == '\t'
  }

  lemma {:induction false} SkipBlanksStops(text: string, i: nat)
    requires i <= |text|
    ensures var j := SkipBlanks(text, i);
            (forall k :: i <= k < j ==> IsBlankChar(text[k])) && (j < |text| ==> !IsBlankChar(text[j]))
    decreases |text| - i
  {
    if i < |text| && (text[i] == ' ' || text[i] == '\t') {
      SkipBlanksStops(text, i + 1);
    }
  }

  lemma {:induction false} SkipNewlinesStops(text: string, i: nat)
    requires i <= |text|
    ensures var j := SkipNewlines(text, i);
            (forall k :: i <= k < j ==> text[k] == '\n') && (j < |text| ==> text[j] != '\n')
    decreases |text| - i
  {
    if i < |text| && text[i] == '\n' {
      SkipNewlinesStops(text, i + 1);
    }
  }

  /** A newline, then spaces and tabs only, then a run of newlines up to `end`. */
  predicate IsBlankLine(text: string, i: nat, j: nat, end: nat) {
    && i < j < end <= |text| && text[i] == '\n'
    && (forall k :: i < k < j ==> IsBlankChar(text[k]))
    && (forall k :: j <= k < end ==> text[k] == '\n')
    && (end < |text| ==> text[end] != '\n')
  }

  /** A paragraph break starts at a place exactly when a blank line does, and ends where the run of newlines ends. */
  lemma {:induction false} BreaksAtBlankLines(text: string, i: nat, j: nat, end: nat)
    requires i < |text| && IsBlankLine(text, i, j, end)
    ensures BreakEnd(text, i) == end
  {
    var s := SkipBlanks(text, i + 1);
    SkipBlanksStops(text, i + 1);
    assert text[j] == '\n' && s == j;
    SkipNewlinesStops(text, j);
  }

  lemma {:induction false} BreaksOnlyAtBlankLines(text: string, i: nat) returns (j: nat)
    requires i < |text| && BreakEnd(text, i) > i
    ensures IsBlankLine(text, i, j, BreakEnd(text, i))
  {
    j := SkipBlanks(text, i + 1);
    SkipBlanksStops(text, i + 1);
    SkipNewlinesStops(text, j);
  }

  lemma {:induction false} KeepParagraphTiles(text: string, lo: nat, hi: nat, next: nat, parts: seq<TextBlock>)
    requires lo <= hi <= next <= |text| && Blank(text[hi..next])
    requires Tiles(parts, text, 0, 0, lo)
    ensures Tiles(KeepParagraph(text, lo, hi, parts), text, 0, 0, next)
  {
    if Blank(text[lo..hi]) {
      BlankCut(text, lo, hi, next);
      TilesPad(parts, text, 0, 0, lo, next);
    } else {
      TilesSnoc(parts, Paragraph(text, lo, hi), text, 0, 0, next);
    }
  }

  lemma {:induction false} ParagraphsTile(text: string, pos: nat, i: nat, parts: seq<TextBlock>)
    requires pos <= i <= |text| && Tiles(parts, text, 0, 0, pos)
    ensures Tiles(ParagraphsFrom(text, pos, i, parts), text, 0, 0, |text|)
    decreases |text| - i
  {
    if i == |text| {
      KeepParagraphTiles(text, pos, i, i, parts);
    } else if BreakEnd(text, i) > i {
      var end := BreakEnd(text, i);
      BreakBlank(text, i);
      KeepParagraphTiles(text, pos, i, end, parts);
      ParagraphsTile(text, end, end, KeepParagraph(text, pos, i, parts));
    } else {
      ParagraphsTile(text, pos, i + 1, parts);
    }
  }

  lemma {:induction false} ParagraphsNonBlank(text: string, pos: nat, i: nat, parts: seq<TextBlock>)
    requires pos <= i <= |text| && NonBlank(parts)
    ensures NonBlank(ParagraphsFrom(text, pos, i, parts))
    decreases |text| - i
  {
    if i < |text| {
      if BreakEnd(text, i) > i {
        var end := BreakEnd(text, i);
        ParagraphsNonBlank(text, end, end, KeepParagraph(text, pos, i, parts));
      } else {
        ParagraphsNonBlank(text, pos, i + 1, parts);
      }
    }
  }

  /**
   * Paragraphs are exact slices with only whitespace between them, so for every target and overlap a chunk of
   * a plain-text document and the span it cites agree up to whitespace. They are the same text if and only if
   * two newlines, and nothing else, separate the chunk's blocks.
   */
  lemma {:induction false} PlainTextCitations(text: string, markdown: bool, target: int, overlapRatio: real, i: nat)
    requires PlainTextResult(text, markdown).Parsed? && target > 0 && 0.0 <= overlapRatio < 1.0
    requires i < |ChunkingOf(PlainTextResult(text, markdown).blocks, target, overlapRatio).specs|
    ensures var blocks := PlainTextResult(text, markdown).blocks;
            var c := ChunkingOf(blocks, target, overlapRatio).specs[i];
            && Tiles(blocks, text, 0, 0, |text|)
            && c.charStart <= c.charEnd <= |text|
            && Ink(c.text) == Ink(text[c.charStart..c.charEnd])
            && (c.text == text[c.charStart..c.charEnd]
                <==> Separated(BlocksOfChunk(blocks, target, overlapRatio, i), text))
  {
    var blocks := PlainTextResult(text, markdown).blocks;
    ParsedTextTiles(text, markdown);
    ChunksCiteInk(blocks, target, overlapRatio, text, 0, |text|, i);
    ChunkCitesExactlyWhen(blocks, target, overlapRatio, text, 0, |text|, i);
  }

  lemma {:induction false} NoBreak(text: string, pos: nat, i: nat, j: nat, parts: seq<TextBlock>)
    requires pos <= i <= j <= |text| && forall k :: i <= k < j ==> text[k] != '\n'
    ensures ParagraphsFrom(text, pos, i, parts) == ParagraphsFrom(text, pos, j, parts)
    decreases j - i
  {
    if i < j {
      NoBreak(text, pos, i + 1, j, parts);
    }
  }

  /** Two paragraphs on lines `0..n` and `n + 3..`, with three newlines between them. */
  ghost predicate ThreeNewlinesApart(text: string, n: nat) {
    && n + 3 < |text|
    && (forall k :: 0 <= k < |text| ==> (text[k] == '\n' <==> n <= k < n + 3))
    && !Blank(text[0..n]) && !Blank(text[n + 3..|text|])
  }

  lemma {:induction false} BreaksOnce(text: string, n: nat)
    requires ThreeNewlinesApart(text, n)
    ensures BreakEnd(text, n) == n + 3
  {
    assert SkipBlanks(text, n + 1) == n + 1;
    assert SkipNewlines(text, n + 3) == n + 3;
    assert SkipNewlines(text, n + 2) == n + 3;
  }

  lemma {:induction false} FirstParagraph(text: string, n: nat)
    requires ThreeNewlinesApart(text, n)
    ensures ParagraphsFrom(text, 0, 0, []) == ParagraphsFrom(text, n + 3, n + 3, [Paragraph(text, 0, n)])
  {
    NoBreak(text, 0, 0, n, []);
    BreaksOnce(text, n);
    assert KeepParagraph(text, 0, n, []) == [Paragraph(text, 0, n)];
  }

  lemma {:induction false} TwoParagraphs(text: string, n: nat)
    requires ThreeNewlinesApart(text, n)
    ensures ParagraphsFrom(text, 0, 0, []) == [Paragraph(text, 0, n), Paragraph(text, n + 3, |text|)]
  {
    FirstParagraph(text, n);
    NoBreak(text, n + 3, n + 3, |text|, [Paragraph(text, 0, n)]);
  }

  /** No split is needed: two paragraphs three newlines apart are cited as a span one newline longer than the chunk. */
  lemma {:induction false} ThreeNewlinesAreNotCitedExactly(
    text: string, markdown: bool, n: nat, target: nat, overlapRatio: real)
    requires ThreeNewlinesApart(text, n) && |text| - 3 <= target && 0.0 <= overlapRatio < 1.0
    ensures PlainTextResult(text, markdown).Parsed?
    ensures var specs := ChunkingOf(PlainTextResult(text, markdown).blocks, target, overlapRatio).specs;
            && |specs| == 1
            && specs[0].charStart == 0 && specs[0].charEnd == |text|
            && specs[0].text == text[0..n] + "\n\n" + text[n + 3..|text|] != text
  {
    assert !Blank(text) by {
      var k :| 0 <= k < n && !IsSpace(text[0..n][k]);
      assert text[k] == text[0..n][k];
    }
    var ps, blocks := ParagraphsFrom(text, 0, 0, []), PlainTextResult(text, markdown).blocks;
    TwoParagraphs(text, n);
    LabelledAt(ps, 2, markdown, 0);
    LabelledAt(ps, 2, markdown, 1);
    PairIsOneChunk(blocks, target, overlapRatio);
    JoinedTwo(blocks);
  }

  lemma {:induction false} PairIsOneChunk(bs: seq<TextBlock>, target: nat, overlapRatio: real)
    requires |bs| == 2 && target > 0 && |bs[0].text| + |bs[1].text| <= target && 0.0 <= overlapRatio < 1.0
    ensures ChunkingOf(bs, target, overlapRatio) == Chunks([BuildChunkSpec(bs, 0)])
  {
    NormalizedSame(bs, 2, target);
    assert bs[..2] == bs;
    assert Offset(bs, 0) == 0 && Offset(bs, 1) == |bs[0].text| && Offset(bs, 2) == |bs[0].text| + |bs[1].text|;
    OneChunk(bs, target, overlapRatio);
  }
}
