/** The VTT, PDF and DOCX parsers, once a library has read the file. */
module Parsers {
  import opened Text
  import opened Blocks
  import opened Layout
  import opened Selections
  import opened Chunking
  import opened Citations

  datatype ParseResult = Parsed(text: string, blocks: seq<TextBlock>) | Empty | Failed | OcrRequired

  function LaidOut(es: seq<Entry>): (bs: seq<TextBlock>)
    ensures IsLaidOut(bs, es)
  {
    seq(|es|, k requires 0 <= k < |es| => BlockOf(es, k))
  }

  function ParsedFrom(es: seq<Entry>): ParseResult {
    if es == [] then Empty else Parsed(StoredText(es), LaidOut(es))
  }

  /**
   * What the chunks of a document with exact offsets cite, for every target size and overlap: always the same
   * ink, and the same text if and only if two newlines separate the chunk's blocks, as they do when none is split.
   */
  lemma {:induction false} ExactDocumentCitations(r: ParseResult, target: int, overlapRatio: real, i: nat)
    requires r.Parsed? && r.blocks != [] && Aligned(r.blocks, r.text) && NonBlank(r.blocks)
    requires target > 0 && 0.0 <= overlapRatio < 1.0
    requires i < |ChunkingOf(r.blocks, target, overlapRatio).specs|
    ensures var c := ChunkingOf(r.blocks, target, overlapRatio).specs[i];
            && c.charStart <= c.charEnd <= |r.text|
            && Ink(c.text) == Ink(r.text[c.charStart..c.charEnd])
            && (c.text == r.text[c.charStart..c.charEnd]
                <==> Separated(BlocksOfChunk(r.blocks, target, overlapRatio, i), r.text))
            && ((forall b <- r.blocks :: |b.text| <= target) ==> c.text == r.text[c.charStart..c.charEnd])
  {
    var lo, hi := r.blocks[0].charStart, r.blocks[|r.blocks| - 1].charEnd;
    AlignedTiles(r.blocks, r.text);
    ChunksCiteInk(r.blocks, target, overlapRatio, r.text, lo, hi, i);
    ChunkCitesExactlyWhen(r.blocks, target, overlapRatio, r.text, lo, hi, i);
    if forall b <- r.blocks :: |b.text| <= target {
      ChunksCiteExactly(r.blocks, target, overlapRatio, r.text, i);
    }
  }

  // ----- VTT ---------------------------------------------------------------

  /** One caption: the name in its voice tag and its text with markup, both as found. */
  datatype Caption = Caption(voiceTag: Option<string>, rawText: string, start: string, end: string)

  datatype VttFile = Malformed | Readable(captions: seq<Caption>, hasCueArrow: bool)

  datatype Cue = Cue(speaker: Option<string>, text: string, start: string, end: string)

  datatype Turn = Turn(speaker: Option<string>, start: string, end: string, texts: seq<string>)

  /** Every tag removed: from `<` to the next `>`. A `<` that is never closed stays. */
  function WithoutTags(s: string): string
    decreases |s|
  {
    if s == "" then ""
    else if s[0] == '<' && '>' in s then
      AfterIsShorter(s, '>');
      WithoutTags(After(s, '>'))
    else [s[0]] + WithoutTags(s[1..])
  }

  function StripMarkup(raw: string): string {
    Strip(WithoutTags(raw))
  }

  predicate HasNoTag(s: string) {
    forall i, j :: 0 <= i < j < |s| ==> !(s[i] == '<' && s[j] == '>')
  }

  lemma {:induction false} NoTagCons(c: char, rest: string)
    requires HasNoTag(rest) && !(c == '<' && '>' in rest)
    ensures HasNoTag([c] + rest)
  {
    forall i, j | 0 <= i < j < |[c] + rest| ensures !(([c] + rest)[i] == '<' && ([c] + rest)[j] == '>') {
      assert ([c] + rest)[j] == rest[j - 1] && rest[j - 1] in rest;
    }
  }

  lemma {:induction false} TagsRemovedKeep(s: string)
    requires '>' !in s
    ensures WithoutTags(s) == s
  {
    if s != "" {
      TagsRemovedKeep(s[1..]);
      assert s == [s[0]] + s[1..];
    }
  }

  /** No markup is left, and a text without markup is left alone; so removing it again changes nothing. */
  lemma {:induction false} MarkupIsGone(s: string)
    ensures HasNoTag(WithoutTags(s))
    ensures WithoutTags(s) == s <==> HasNoTag(s)
    decreases |s|
  {
    if s != "" {
      if s[0] == '<' && '>' in s {
        AfterIsShorter(s, '>');
        MarkupIsGone(After(s, '>'));
        var k :| 0 <= k < |s| && s[k] == '>';
        WithoutTagsIsShorter(After(s, '>'));
      } else {
        MarkupIsGone(s[1..]);
        if s[0] == '<' {
          TagsRemovedKeep(s[1..]);
        }
        NoTagCons(s[0], WithoutTags(s[1..]));
        assert s == [s[0]] + s[1..];
        NoTagTail(s);
      }
    }
  }

  lemma {:induction false} NoTagTail(s: string)
    requires s != "" && !(s[0] == '<' && '>' in s)
    ensures HasNoTag(s) <==> HasNoTag(s[1..])
  {
    if HasNoTag(s[1..]) {
      assert s == [s[0]] + s[1..];
      NoTagCons(s[0], s[1..]);
    }
    if HasNoTag(s) {
      forall i, j | 0 <= i < j < |s[1..]| ensures !(s[1..][i] == '<' && s[1..][j] == '>') {
        assert !(s[i + 1] == '<' && s[j + 1] == '>');
      }
    }
  }

  /** The character lies between a `<` and the first `>` after it, both included. */
  ghost predicate InTag(s: string, k: nat) {
    k < |s| && (exists i :: Opens(s, i, k)) && exists j :: k <= j < |s| && s[j] == '>'
  }

  predicate Opens(s: string, i: int, k: nat) {
    0 <= i <= k < |s| && s[i] == '<' && forall m :: i <= m < k ==> s[m] != '>'
  }

  /** The characters of `s[lo..hi]` that lie in no tag of `s`. */
  ghost function Outside(s: string, lo: nat, hi: nat): string
    requires lo <= hi <= |s|
    decreases hi
  {
    if lo == hi then "" else if InTag(s, hi - 1) then Outside(s, lo, hi - 1) else Outside(s, lo, hi - 1) + [s[hi - 1]]
  }

  lemma {:induction false} AfterIs(s: string, c: char) returns (e: nat)
    requires c in s
    ensures 0 < e <= |s| && s[e - 1] == c && After(s, c) == s[e..] && forall m :: 0 <= m < e - 1 ==> s[m] != c
  {
    if s[0] == c {
      e := 1;
    } else {
      assert s == [s[0]] + s[1..];
      var f := AfterIs(s[1..], c);
      e := f + 1;
      assert forall m :: 0 < m < e ==> s[m] == s[1..][m - 1];
      assert s[1..][f..] == s[e..];
    }
  }

  lemma {:induction false} TagsOfRest(s: string, e: nat, k: nat)
    requires 0 < e <= |s| && k < |s| - e
    requires s[e - 1] == '>' || (e == 1 && !(s[0] == '<' && '>' in s))
    ensures InTag(s, e + k) <==> InTag(s[e..], k)
  {
    var rest := s[e..];
    assert forall m :: 0 <= m < |rest| ==> rest[m] == s[e + m];
    if InTag(s, e + k) {
      var i :| Opens(s, i, e + k);
      var j :| e + k <= j < |s| && s[j] == '>';
      assert s[j] in s;
      assert i >= e;
      assert Opens(rest, i - e, k) && rest[j - e] == '>';
    }
    if InTag(rest, k) {
      var i :| Opens(rest, i, k);
      var j :| k <= j < |rest| && rest[j] == '>';
      OpensLater(s, e, i, k);
      assert s[e + j] == '>';
    }
  }

  lemma {:induction false} OpensLater(s: string, e: nat, i: int, k: nat)
    requires e <= |s| && Opens(s[e..], i, k)
    ensures Opens(s, e + i, e + k)
  {
    forall m | e + i <= m < e + k ensures s[m] != '>' {
      assert s[e..][m - e] == s[m];
    }
  }

  lemma {:induction false} OutsideConcat(s: string, lo: nat, mid: nat, hi: nat)
    requires lo <= mid <= hi <= |s|
    ensures Outside(s, lo, hi) == Outside(s, lo, mid) + Outside(s, mid, hi)
    decreases hi
  {
    if mid < hi {
      OutsideConcat(s, lo, mid, hi - 1);
    }
  }

  lemma {:induction false} OutsideOfRest(s: string, e: nat, n: nat)
    requires 0 < e <= e + n <= |s|
    requires s[e - 1] == '>' || (e == 1 && !(s[0] == '<' && '>' in s))
    ensures Outside(s, e, e + n) == Outside(s[e..], 0, n)
  {
    if n > 0 {
      OutsideOfRest(s, e, n - 1);
      TagsOfRest(s, e, n - 1);
      assert s[e..][n - 1] == s[e + n - 1];
    }
  }

  lemma {:induction false} NothingOutside(s: string, n: nat)
    requires n <= |s| && forall k :: 0 <= k < n ==> InTag(s, k)
    ensures Outside(s, 0, n) == ""
  {
    if n > 0 {
      NothingOutside(s, n - 1);
    }
  }

  /** Removing tags keeps exactly the characters outside of them, in order. */
  lemma {:induction false} OnlyTagsRemoved(s: string)
    ensures WithoutTags(s) == Outside(s, 0, |s|)
    decreases |s|
  {
    if s != "" {
      if s[0] == '<' && '>' in s {
        var e := TagIsInside(s);
        var rest := s[e..];
        OnlyTagsRemoved(rest);
        assert WithoutTags(s) == WithoutTags(rest);
      } else {
        var rest := s[1..];
        OnlyTagsRemoved(rest);
        FirstIsOutside(s);
        assert WithoutTags(s) == [s[0]] + WithoutTags(rest);
      }
    }
  }

  lemma {:induction false} TagIsInside(s: string) returns (e: nat)
    requires s != "" && s[0] == '<' && '>' in s
    ensures 0 < e <= |s| && After(s, '>') == s[e..]
    ensures Outside(s, 0, |s|) == Outside(s[e..], 0, |s| - e)
  {
    e := AfterIs(s, '>');
    forall k: nat | k < e ensures InTag(s, k) {
      assert Opens(s, 0, k) && s[e - 1] == '>';
    }
    NothingOutside(s, e);
    OutsideConcat(s, 0, e, |s|);
    OutsideOfRest(s, e, |s| - e);
    assert "" + Outside(s, e, |s|) == Outside(s, e, |s|);
  }

  lemma {:induction false} FirstIsOutside(s: string)
    requires s != "" && !(s[0] == '<' && '>' in s)
    ensures Outside(s, 0, |s|) == [s[0]] + Outside(s[1..], 0, |s| - 1)
  {
    assert Outside(s, 0, 0) == "";
    assert Outside(s, 0, 1) == [s[0]];
    OutsideConcat(s, 0, 1, |s|);
    OutsideOfRest(s, 1, |s| - 1);
  }

  lemma {:induction false} WithoutTagsIsShorter(s: string)
    ensures |WithoutTags(s)| <= |s|
    decreases |s|
  {
    if s != "" {
      if s[0] == '<' && '>' in s {
        AfterIsShorter(s, '>');
        WithoutTagsIsShorter(After(s, '>'));
      } else {
        WithoutTagsIsShorter(s[1..]);
      }
    }
  }

  function CueOf(c: Caption): Cue {
    Cue(if c.voiceTag.None? then None else Some(Strip(c.voiceTag.value)), StripMarkup(c.rawText), c.start, c.end)
  }

  function AddCue(turns: seq<Turn>, cue: Cue): seq<Turn> {
    var n := |turns| - 1;
    if cue.text == "" then turns
    else if turns != [] && turns[n].speaker == cue.speaker then
      turns[..n] + [turns[n].(end := cue.end, texts := turns[n].texts + [cue.text])]
    else turns + [Turn(cue.speaker, cue.start, cue.end, [cue.text])]
  }

  function Turns(captions: seq<Caption>, n: nat): seq<Turn>
    requires n <= |captions|
  {
    if n == 0 then [] else AddCue(Turns(captions, n - 1), CueOf(captions[n - 1]))
  }

  /** The cues of the first `n` captions that say something. */
  function Spoken(captions: seq<Caption>, n: nat): seq<Cue>
    requires n <= |captions|
  {
    if n == 0 then [] else AddSpoken(Spoken(captions, n - 1), CueOf(captions[n - 1]))
  }

  function AddSpoken(cues: seq<Cue>, cue: Cue): seq<Cue> {
    if cue.text == "" then cues else cues + [cue]
  }

  /** The turn merges exactly these cues, all by its speaker. */
  predicate IsRun(t: Turn, cues: seq<Cue>) {
    && |cues| == |t.texts| > 0
    && (forall i :: 0 <= i < |cues| ==> cues[i].speaker == t.speaker && cues[i].text == t.texts[i])
    && t.start == cues[0].start && t.end == cues[|cues| - 1].end
  }

  /** The turns are the maximal runs of consecutive cues by one speaker. */
  predicate AreMaximalRuns(turns: seq<Turn>, cues: seq<Cue>) {
    if turns == [] then cues == []
    else
      var m := |turns| - 1;
      var k := |cues| - |turns[m].texts|;
      && k >= 0
      && IsRun(turns[m], cues[k..])
      && (m > 0 ==> turns[m - 1].speaker != turns[m].speaker)
      && AreMaximalRuns(turns[..m], cues[..k])
  }

  lemma {:induction false} RunsFrom(turns: seq<Turn>, cues: seq<Cue>, init: seq<Turn>, t: Turn, before: seq<Cue>, run: seq<Cue>)
    requires |turns| == |init| + 1 && turns[..|init|] == init && turns[|init|] == t
    requires |cues| == |before| + |run| && cues[..|before|] == before && cues[|before|..] == run
    requires AreMaximalRuns(init, before) && |run| == |t.texts| && IsRun(t, run)
    requires init != [] ==> init[|init| - 1].speaker != t.speaker
    ensures AreMaximalRuns(turns, cues)
  {
    assert init != [] ==> turns[|init| - 1] == init[|init| - 1];
  }

  lemma {:induction false} Snoc<T>(s: seq<T>, more: seq<T>)
    ensures (s + more)[..|s|] == s && (s + more)[|s|..] == more
  {
  }

  lemma {:induction false} RunsSnoc(turns: seq<Turn>, cues: seq<Cue>, t: Turn, run: seq<Cue>)
    requires AreMaximalRuns(turns, cues) && |run| == |t.texts| && IsRun(t, run)
    requires turns != [] ==> turns[|turns| - 1].speaker != t.speaker
    ensures AreMaximalRuns(turns + [t], cues + run)
  {
    Snoc(turns, [t]);
    Snoc(cues, run);
    RunsFrom(turns + [t], cues + run, turns, t, cues, run);
  }

  lemma {:induction false} RunGrows(t: Turn, run: seq<Cue>, cue: Cue)
    requires IsRun(t, run) && cue.speaker == t.speaker
    ensures IsRun(t.(end := cue.end, texts := t.texts + [cue.text]), run + [cue])
  {
  }

  lemma {:induction false} RunOfOne(cue: Cue)
    ensures IsRun(Turn(cue.speaker, cue.start, cue.end, [cue.text]), [cue])
  {
  }

  lemma {:induction false} LastRun(turns: seq<Turn>, cues: seq<Cue>)
    requires AreMaximalRuns(turns, cues) && turns != []
    ensures var n := |turns| - 1;
            var k := |cues| - |turns[n].texts|;
            && k >= 0 && IsRun(turns[n], cues[k..]) && AreMaximalRuns(turns[..n], cues[..k])
            && (turns[..n] != [] ==> turns[..n][n - 1].speaker != turns[n].speaker)
  {
  }

  /** The last turn takes in one more cue of its speaker. */
  lemma {:induction false} LastRunGrows(init: seq<Turn>, t: Turn, before: seq<Cue>, run: seq<Cue>, cue: Cue)
    requires AreMaximalRuns(init, before) && IsRun(t, run) && cue.speaker == t.speaker
    requires init != [] ==> init[|init| - 1].speaker != t.speaker
    ensures AreMaximalRuns(init + [t.(end := cue.end, texts := t.texts + [cue.text])], before + run + [cue])
  {
    RunGrows(t, run, cue);
    RunsSnoc(init, before, t.(end := cue.end, texts := t.texts + [cue.text]), run + [cue]);
    assert before + (run + [cue]) == before + run + [cue];
  }

  lemma {:induction false} AddCueKeepsRuns(turns: seq<Turn>, cues: seq<Cue>, cue: Cue)
    requires AreMaximalRuns(turns, cues)
    ensures AreMaximalRuns(AddCue(turns, cue), AddSpoken(cues, cue))
  {
    var n := |turns| - 1;
    if cue.text != "" {
      if turns != [] && turns[n].speaker == cue.speaker {
        var k := |cues| - |turns[n].texts|;
        LastRun(turns, cues);
        LastRunGrows(turns[..n], turns[n], cues[..k], cues[k..], cue);
        assert cues[..k] + cues[k..] == cues;
      } else {
        RunOfOne(cue);
        RunsSnoc(turns, cues, Turn(cue.speaker, cue.start, cue.end, [cue.text]), [cue]);
      }
    }
  }

  /** Merging keeps every spoken cue once, in order, and merges exactly the adjacent cues of one speaker. */
  lemma {:induction false} TurnsAreMaximalRuns(captions: seq<Caption>, n: nat)
    requires n <= |captions|
    ensures AreMaximalRuns(Turns(captions, n), Spoken(captions, n))
  {
    if n > 0 {
      TurnsAreMaximalRuns(captions, n - 1);
      AddCueKeepsRuns(Turns(captions, n - 1), Spoken(captions, n - 1), CueOf(captions[n - 1]));
    }
  }

  function SaysSomething(): Caption -> bool {
    (c: Caption) => Strip(WithoutTags(c.rawText)) != ""
  }

  /** The spoken cues are the captions that say something, in order: stripped text and name, and their own times. */
  lemma {:induction false} SpokenAreCaptions(captions: seq<Caption>, n: nat)
    requires n <= |captions|
    ensures |Spoken(captions, n)| == |Filtered(captions, n, SaysSomething())|
    ensures forall i :: 0 <= i < |Spoken(captions, n)| ==>
              var cue, c := Spoken(captions, n)[i], Filtered(captions, n, SaysSomething())[i];
              && cue.text == Strip(WithoutTags(c.rawText)) && cue.start == c.start && cue.end == c.end
              && (cue.speaker.Some? <==> c.voiceTag.Some?) && (cue.speaker.Some? ==> cue.speaker.value == Strip(c.voiceTag.value))
  {
    if n > 0 {
      SpokenAreCaptions(captions, n - 1);
    }
  }

  function HasName(speaker: Option<string>): bool {
    speaker.Some? && speaker.value != ""
  }

  function TurnText(t: Turn): string {
    (if HasName(t.speaker) then t.speaker.value + ": " else "") + Join(" ", t.texts)
  }

  function TurnEntry(t: Turn, ordinal: nat): Entry {
    Entry(TurnText(t),
          Some("turn " + Numeral(ordinal) + if HasName(t.speaker) then " (" + t.speaker.value + ")" else ""),
          Some(t.start + "-" + t.end))
  }

  /** The entries of the first `n` turns. */
  function TurnEntries(turns: seq<Turn>, n: nat): (es: seq<Entry>)
    requires n <= |turns|
    ensures |es| == n
  {
    if n == 0 then [] else TurnEntries(turns, n - 1) + [TurnEntry(turns[n - 1], n)]
  }

  lemma {:induction false} TurnEntryAt(turns: seq<Turn>, n: nat, i: nat)
    requires i < n <= |turns|
    ensures TurnEntries(turns, n)[i] == TurnEntry(turns[i], i + 1)
  {
    if i < n - 1 {
      TurnEntryAt(turns, n - 1, i);
    }
  }

  /** A turn is labelled by its number, its speaker if it has one, and its times. */
  lemma {:induction false} TurnsAreLabelled(turns: seq<Turn>, n: nat, i: nat)
    requires i < n <= |turns|
    ensures var e, t := TurnEntries(turns, n)[i], turns[i];
            && e.text == TurnText(t) && e.locationLabel == Some(t.start + "-" + t.end)
            && (HasName(t.speaker) ==> e.sectionPath == Some("turn " + Numeral(i + 1) + (" (" + t.speaker.value + ")")))
            && (!HasName(t.speaker) ==> e.sectionPath == Some("turn " + Numeral(i + 1) + ""))
  {
    TurnEntryAt(turns, n, i);
  }

  function VttResult(file: VttFile): ParseResult {
    match file
    case Malformed => Failed
    case Readable(captions, hasCueArrow) =>
      if captions == [] then (if hasCueArrow then Failed else Empty)
      else
        var turns := Turns(captions, |captions|);
        ParsedFrom(TurnEntries(turns, |turns|))
  }

  method MergeTurns(captions: seq<Caption>) returns (turns: seq<Turn>)
    ensures turns == Turns(captions, |captions|)
  {
    turns := [];
    for i := 0 to |captions|
      invariant turns == Turns(captions, i)
    {
      var cue := CueOf(captions[i]);
      if cue.text != "" {
        var last := |turns| - 1;
        if turns != [] && turns[last].speaker == cue.speaker {
          turns := turns[last := turns[last].(end := cue.end, texts := turns[last].texts + [cue.text])];
        } else {
          turns := turns + [Turn(cue.speaker, cue.start, cue.end, [cue.text])];
        }
      }
    }
  }

  method LayOutTurns(turns: seq<Turn>) returns (textParts: string, blocks: seq<TextBlock>)
    ensures var es := TurnEntries(turns, |turns|); textParts == Body(es, |es|) && blocks == LaidOut(es)
  {
    textParts, blocks := "", [];
    var cursor := 0;
    ghost var es: seq<Entry> := [];
    for i := 0 to |turns|
      invariant es == TurnEntries(turns, i)
      invariant cursor == Cursor(es, |es|) && textParts == Body(es, |es|) && blocks == LaidOut(es)
    {
      var entry := TurnEntry(turns[i], i + 1);
      LaidOutSnoc(es, entry);
      es := es + [entry];
      var start := cursor;
      textParts := textParts + entry.text;
      cursor := cursor + |entry.text|;
      blocks := blocks + [TextBlock(entry.text, start, cursor, entry.sectionPath, entry.locationLabel)];
      textParts := textParts + "\n\n";
      cursor := cursor + 2;
    }
  }

  method ParseVtt(file: VttFile) returns (r: ParseResult)
    ensures r == VttResult(file)
  {
    if file.Malformed? {
      return Failed;
    }
    if file.captions == [] {
      return if file.hasCueArrow then Failed else Empty;
    }
    var turns := MergeTurns(file.captions);
    var textParts, blocks := LayOutTurns(turns);
    if blocks == [] {
      return Empty;
    }
    r := Parsed(Strip(textParts), blocks);
  }

  predicate CleanTurn(t: Turn) {
    t.texts != [] && (forall s <- t.texts :: s != "" && Trimmed(s)) && (HasName(t.speaker) ==> Trimmed(t.speaker.value))
  }

  lemma {:induction false} CueClean(c: Caption)
    ensures Trimmed(CueOf(c).text) && (CueOf(c).speaker.Some? ==> Trimmed(CueOf(c).speaker.value))
  {
    var _, _ := StripSplits(WithoutTags(c.rawText));
    if c.voiceTag.Some? {
      var _, _ := StripSplits(c.voiceTag.value);
    }
  }

  lemma {:induction false} AddCueClean(turns: seq<Turn>, cue: Cue)
    requires Trimmed(cue.text) && (cue.speaker.Some? ==> Trimmed(cue.speaker.value))
    requires forall i :: 0 <= i < |turns| ==> CleanTurn(turns[i])
    ensures forall i :: 0 <= i < |AddCue(turns, cue)| ==> CleanTurn(AddCue(turns, cue)[i])
  {
  }

  lemma {:induction false} TurnsClean(captions: seq<Caption>, n: nat)
    requires n <= |captions|
    ensures forall i :: 0 <= i < |Turns(captions, n)| ==> CleanTurn(Turns(captions, n)[i])
  {
    if n > 0 {
      TurnsClean(captions, n - 1);
      CueClean(captions[n - 1]);
      AddCueClean(Turns(captions, n - 1), CueOf(captions[n - 1]));
    }
  }

  lemma {:induction false} TurnTextTrimmed(t: Turn)
    requires CleanTurn(t)
    ensures TurnText(t) != "" && Trimmed(TurnText(t))
  {
    var n := |t.texts| - 1;
    assert t.texts[0] in t.texts && t.texts[n] in t.texts;
    JoinStarts(" ", t.texts);
    JoinEnds(" ", t.texts);
  }

  /** A turn's text is its speaker, if it has one, a colon, and the texts of its cues; only spaces are added. */
  lemma {:induction false} TurnKeepsText(t: Turn)
    ensures HasName(t.speaker) ==> t.speaker.value + ": " <= TurnText(t)
    ensures Ink(TurnText(t)) == (if HasName(t.speaker) then Ink(t.speaker.value) + ":" else "") + TextsInk(t.texts)
  {
    JoinInk(" ", t.texts);
    if HasName(t.speaker) {
      InkConcat(t.speaker.value + ": ", Join(" ", t.texts));
      LabelInk(t.speaker.value);
    } else {
      assert "" + Join(" ", t.texts) == Join(" ", t.texts);
    }
  }

  lemma {:induction false} LabelInk(name: string)
    ensures Ink(name + ": ") == Ink(name) + ":"
  {
    InkConcat(name, ": ");
    InkCons(':', " ");
    InkCons(' ', "");
    assert [':'] + " " == ": " && [' '] + "" == " ";
  }

  /** The non-blank characters of the first `n` turns, speakers included. */
  function TranscriptInk(turns: seq<Turn>, n: nat): string
    requires n <= |turns|
  {
    if n == 0 then "" else TranscriptInk(turns, n - 1) + Ink(TurnText(turns[n - 1]))
  }

  /** A parsed transcript carries every turn's text. */
  lemma {:induction false} TranscriptLosesNoText(turns: seq<Turn>, n: nat)
    requires n <= |turns|
    ensures BlocksInk(LaidOut(TurnEntries(turns, n))) == TranscriptInk(turns, n)
  {
    if n == 0 {
      assert LaidOut([]) == [];
    } else {
      TranscriptLosesNoText(turns, n - 1);
      var es, e := TurnEntries(turns, n - 1), TurnEntry(turns[n - 1], n);
      LaidOutSnoc(es, e);
      BlocksInkSnoc(LaidOut(es), TextBlock(e.text, Cursor(es, |es|), Cursor(es, |es|) + |e.text|, e.sectionPath, e.locationLabel));
    }
  }

  lemma {:induction false} LaidOutNonBlank(es: seq<Entry>)
    requires forall i :: 0 <= i < |es| ==> es[i].text != "" && Trimmed(es[i].text)
    ensures NonBlank(LaidOut(es))
  {
  }

  /** Every transcript turn is exactly the slice of the stored text its offsets name. */
  lemma {:induction false} VttOffsetsExact(file: VttFile)
    requires VttResult(file).Parsed?
    ensures var r := VttResult(file); r.blocks != [] && Aligned(r.blocks, r.text) && NonBlank(r.blocks)
  {
    var turns := Turns(file.captions, |file.captions|);
    var es := TurnEntries(turns, |turns|);
    TurnsClean(file.captions, |file.captions|);
    forall i | 0 <= i < |es| ensures es[i].text != "" && Trimmed(es[i].text) {
      TurnEntryAt(turns, |turns|, i);
      TurnTextTrimmed(turns[i]);
    }
    TrimmedEndsAligned(LaidOut(es), es);
    LaidOutNonBlank(es);
  }

  // ----- PDF ---------------------------------------------------------------

  const MIN_NON_WHITESPACE_CHARS_PER_PAGE := 30

  predicate IsDense(page: string) {
    |Ink(page)| >= MIN_NON_WHITESPACE_CHARS_PER_PAGE
  }

  function PageEntry(page: string, number: nat): Entry {
    var place := Some("page " + Numeral(number));
    Entry(Strip(page), place, place)
  }

  /** The entries of the first `n` pages, blank pages left out. */
  function PageEntries(pages: seq<string>, n: nat): seq<Entry>
    requires n <= |pages|
  {
    if n == 0 then [] else AddPage(PageEntries(pages, n - 1), pages[n - 1], n)
  }

  function AddPage(es: seq<Entry>, page: string, number: nat): seq<Entry> {
    if Strip(page) == "" then es else es + [PageEntry(page, number)]
  }

  function HasText(pages: seq<string>): nat -> bool {
    (k: nat) => k < |pages| && !Blank(pages[k])
  }

  lemma {:induction false} PagesCounted(pages: seq<string>, n: nat)
    requires n <= |pages|
    ensures |PageEntries(pages, n)| == |Places(n, HasText(pages))|
  {
    if n > 0 {
      PagesCounted(pages, n - 1);
      var _, _ := StripSplits(pages[n - 1]);
    }
  }

  lemma {:induction false} PageAdded(pages: seq<string>, n: nat)
    requires 0 < n <= |pages|
    ensures Blank(pages[n - 1]) ==>
              PageEntries(pages, n) == PageEntries(pages, n - 1) && Places(n, HasText(pages)) == Places(n - 1, HasText(pages))
    ensures !Blank(pages[n - 1]) ==>
              && PageEntries(pages, n) == PageEntries(pages, n - 1) + [PageEntry(pages[n - 1], n)]
              && Places(n, HasText(pages)) == Places(n - 1, HasText(pages)) + [n - 1]
  {
    var _, _ := StripSplits(pages[n - 1]);
  }

  lemma {:induction false} PageEntryAt(pages: seq<string>, n: nat, i: nat)
    requires n <= |pages| && i < |PageEntries(pages, n)|
    ensures i < |Places(n, HasText(pages))|
    ensures var k := Places(n, HasText(pages))[i]; k < |pages| && PageEntries(pages, n)[i] == PageEntry(pages[k], k + 1)
  {
    PageAdded(pages, n);
    PagesCounted(pages, n - 1);
    if i < |PageEntries(pages, n - 1)| {
      PageEntryAt(pages, n - 1, i);
    }
  }

  /** The pages with text are kept in order, each stripped and labelled by its own number in the file. */
  lemma {:induction false} PagesAreLabelled(pages: seq<string>, n: nat, i: nat)
    requires n <= |pages| && i < |PageEntries(pages, n)|
    ensures i < |Places(n, HasText(pages))| && Selects(Places(n, HasText(pages)), n, HasText(pages))
    ensures var e, k := PageEntries(pages, n)[i], Places(n, HasText(pages))[i];
            && k < |pages| && e.text == Strip(pages[k])
            && e.sectionPath == Some("page " + Numeral(k + 1)) && e.locationLabel == Some("page " + Numeral(k + 1))
  {
    PlacesSelect(n, HasText(pages));
    PageEntryAt(pages, n, i);
  }

  /** `None` is a file the PDF library could not read. */
  function PdfResult(file: Option<seq<string>>): ParseResult {
    if file.None? || file.value == [] then Failed
    else if forall page <- file.value :: !IsDense(page) then OcrRequired
    else Parsed(StoredText(PageEntries(file.value, |file.value|)), LaidOut(PageEntries(file.value, |file.value|)))
  }

  method CountDensePages(pages: seq<string>) returns (dense: nat)
    ensures dense == 0 <==> forall page <- pages :: !IsDense(page)
  {
    dense := 0;
    for i := 0 to |pages|
      invariant dense == 0 <==> forall k :: 0 <= k < i ==> !IsDense(pages[k])
    {
      if IsDense(pages[i]) {
        dense := dense + 1;
      }
    }
  }

  method ParsePdf(file: Option<seq<string>>) returns (r: ParseResult)
    ensures r == PdfResult(file)
  {
    if file.None? {
      return Failed;
    }
    var pages := file.value;
    if pages == [] {
      return Failed;
    }
    var dense := CountDensePages(pages);
    if dense == 0 {
      return OcrRequired;
    }
    var blocks, textParts, cursor := [], "", 0;
    ghost var es: seq<Entry> := [];
    for i := 0 to |pages|
      invariant es == PageEntries(pages, i)
      invariant cursor == Cursor(es, |es|) && textParts == Body(es, |es|) && blocks == LaidOut(es)
    {
      var stripped := Strip(pages[i]);
      if stripped != "" {
        var entry := PageEntry(pages[i], i + 1);
        LaidOutSnoc(es, entry);
        es := es + [entry];
        var start := cursor;
        textParts := textParts + stripped;
        cursor := cursor + |stripped|;
        blocks := blocks + [TextBlock(stripped, start, cursor, entry.sectionPath, entry.locationLabel)];
        textParts := textParts + "\n\n";
        cursor := cursor + 2;
      }
    }
    r := Parsed(Strip(textParts), blocks);
  }

  lemma {:induction false} PrefixLayout(es: seq<Entry>, e: Entry, k: nat)
    requires k <= |es|
    ensures Cursor(es + [e], k) == Cursor(es, k) && Body(es + [e], k) == Body(es, k)
  {
    if k > 0 {
      PrefixLayout(es, e, k - 1);
      assert (es + [e])[k - 1] == es[k - 1];
    }
  }

  /** Appending one entry appends one block at the cursor. */
  lemma {:induction false} LaidOutSnoc(es: seq<Entry>, e: Entry)
    ensures var all, at := es + [e], Cursor(es, |es|);
            && Cursor(all, |all|) == at + |e.text| + 2
            && Body(all, |all|) == Body(es, |es|) + e.text + "\n\n"
            && LaidOut(all) == LaidOut(es) + [TextBlock(e.text, at, at + |e.text|, e.sectionPath, e.locationLabel)]
  {
    var all := es + [e];
    PrefixLayout(es, e, |es|);
    forall k | 0 <= k < |es| ensures LaidOut(all)[k] == LaidOut(es)[k] {
      PrefixLayout(es, e, k);
      assert all[k] == es[k];
    }
  }

  lemma {:induction false} PageEntriesTrimmed(pages: seq<string>, n: nat)
    requires n <= |pages|
    ensures forall e <- PageEntries(pages, n) :: e.text != "" && Trimmed(e.text)
    ensures (exists k :: 0 <= k < n && IsDense(pages[k])) ==> PageEntries(pages, n) != []
  {
    if n > 0 {
      PageEntriesTrimmed(pages, n - 1);
      var page := pages[n - 1];
      var _, _ := StripSplits(page);
      InkBlank(page);
    }
  }

  /** A PDF is parsed exactly when some page is dense; then there are blocks and all offsets are exact. */
  lemma {:induction false} PdfOffsetsExact(file: Option<seq<string>>)
    ensures PdfResult(file).Parsed? <==> file.Some? && exists page <- file.value :: IsDense(page)
    ensures PdfResult(file).Parsed? ==>
              var r := PdfResult(file); r.blocks != [] && Aligned(r.blocks, r.text) && NonBlank(r.blocks)
  {
    if PdfResult(file).Parsed? {
      var es := PageEntries(file.value, |file.value|);
      PageEntriesTrimmed(file.value, |file.value|);
      assert es[0] in es && es[|es| - 1] in es;
      TrimmedEndsAligned(LaidOut(es), es);
      LaidOutNonBlank(es);
    }
  }

  /** The non-blank characters of the first `n` pages. */
  function PagesInk(pages: seq<string>, n: nat): string
    requires n <= |pages|
  {
    if n == 0 then "" else PagesInk(pages, n - 1) + Ink(pages[n - 1])
  }

  /** The blocks carry all text of all pages. */
  lemma {:induction false} PdfLosesNoText(pages: seq<string>, n: nat)
    requires n <= |pages|
    ensures BlocksInk(LaidOut(PageEntries(pages, n))) == PagesInk(pages, n)
  {
    if n == 0 {
      assert LaidOut([]) == [];
    } else {
      PdfLosesNoText(pages, n - 1);
      AddPageInk(PageEntries(pages, n - 1), pages[n - 1], n);
    }
  }

  lemma {:induction false} AddPageInk(es: seq<Entry>, page: string, number: nat)
    ensures BlocksInk(LaidOut(AddPage(es, page, number))) == BlocksInk(LaidOut(es)) + Ink(page)
  {
    StripInk(page);
    if Strip(page) != "" {
      var e, at := PageEntry(page, number), Cursor(es, |es|);
      LaidOutSnoc(es, e);
      BlocksInkSnoc(LaidOut(es), TextBlock(e.text, at, at + |e.text|, e.sectionPath, e.locationLabel));
    }
  }

  // ----- DOCX --------------------------------------------------------------

  /** What the body of a document holds, in reading order; a table is rows of cell texts. */
  datatype BodyItem = Paragraph(text: string, isListItem: bool) | Table(rows: seq<seq<string>>)

  function ParagraphEntry(text: string, isListItem: bool, ordinal: nat): Entry {
    Entry(text, Some((if isListItem then "list item " else "paragraph ") + Numeral(ordinal)), None)
  }

  function CellEntry(text: string, table: nat, row: nat, col: nat): Entry {
    Entry(text, Some("table " + Numeral(table) + " row " + Numeral(row) + " col " + Numeral(col)), None)
  }

  function CellEntries(cells: seq<string>, table: nat, row: nat, n: nat): seq<Entry>
    requires n <= |cells|
  {
    if n == 0 then [] else CellEntries(cells, table, row, n - 1) + [CellEntry(cells[n - 1], table, row, n)]
  }

  function RowEntries(rows: seq<seq<string>>, table: nat, n: nat): seq<Entry>
    requires n <= |rows|
  {
    if n == 0 then [] else RowEntries(rows, table, n - 1) + CellEntries(rows[n - 1], table, n, |rows[n - 1]|)
  }

  /** Paragraphs and tables are counted apart. */
  function CountParagraphs(body: seq<BodyItem>, n: nat): (count: nat)
    requires n <= |body|
    ensures count <= n
  {
    if n == 0 then 0 else if body[n - 1].Paragraph? then CountParagraphs(body, n - 1) + 1 else CountParagraphs(body, n - 1)
  }

  function EntriesOf(item: BodyItem, paragraphs: nat, tables: nat): seq<Entry> {
    match item
    case Paragraph(text, isListItem) => [ParagraphEntry(text, isListItem, paragraphs)]
    case Table(rows) => RowEntries(rows, tables, |rows|)
  }

  /** The texts of the first `n` items, with their section paths. */
  function BodyEntries(body: seq<BodyItem>, n: nat): seq<Entry>
    requires n <= |body|
  {
    if n == 0 then []
    else
      var paragraphs := CountParagraphs(body, n);
      BodyEntries(body, n - 1) + EntriesOf(body[n - 1], paragraphs, n - paragraphs)
  }

  function ParagraphTest(): BodyItem -> bool {
    (item: BodyItem) => item.Paragraph?
  }

  lemma {:induction false} ParagraphsCounted(body: seq<BodyItem>, n: nat)
    requires n <= |body|
    ensures CountParagraphs(body, n) == |Filtered(body, n, ParagraphTest())|
  {
    if n > 0 {
      ParagraphsCounted(body, n - 1);
    }
  }

  /** The body is read item by item; paragraphs and list items share one numbering, and tables have their own. */
  lemma {:induction false} BodyReadsOn(body: seq<BodyItem>, k: nat)
    requires k < |body|
    ensures var before, after := BodyEntries(body, k), BodyEntries(body, k + 1);
            var paragraphs := |Filtered(body, k + 1, ParagraphTest())|;
            && paragraphs <= k + 1 && before <= after
            && (body[k].Paragraph? ==>
                  && |after| == |before| + 1 && after[|before|].text == body[k].text
                  && after[|before|].sectionPath
                     == Some((if body[k].isListItem then "list item " else "paragraph ") + Numeral(paragraphs)))
            && (body[k].Table? ==> after[|before|..] == RowEntries(body[k].rows, k + 1 - paragraphs, |body[k].rows|))
  {
    ParagraphsCounted(body, k + 1);
    var before, paragraphs := BodyEntries(body, k), CountParagraphs(body, k + 1);
    var more := EntriesOf(body[k], paragraphs, k + 1 - paragraphs);
    assert BodyEntries(body, k + 1) == before + more;
    assert (before + more)[|before|..] == more;
  }

  /** How many cells the first `n` rows have. */
  function CellCount(rows: seq<seq<string>>, n: nat): nat
    requires n <= |rows|
  {
    if n == 0 then 0 else CellCount(rows, n - 1) + |rows[n - 1]|
  }

  lemma {:induction false} CellAt(cells: seq<string>, table: nat, row: nat, n: nat, col: nat)
    requires col < n <= |cells|
    ensures |CellEntries(cells, table, row, n)| == n
    ensures CellEntries(cells, table, row, n)[col] == CellEntry(cells[col], table, row, col + 1)
  {
    CellsCounted(cells, table, row, n - 1);
    if col < n - 1 {
      CellAt(cells, table, row, n - 1, col);
    }
  }

  lemma {:induction false} CellsCounted(cells: seq<string>, table: nat, row: nat, n: nat)
    requires n <= |cells|
    ensures |CellEntries(cells, table, row, n)| == n
  {
    if n > 0 {
      CellsCounted(cells, table, row, n - 1);
    }
  }

  lemma {:induction false} RowsCounted(rows: seq<seq<string>>, table: nat, n: nat)
    requires n <= |rows|
    ensures |RowEntries(rows, table, n)| == CellCount(rows, n)
  {
    if n > 0 {
      RowsCounted(rows, table, n - 1);
      CellsCounted(rows[n - 1], table, n, |rows[n - 1]|);
    }
  }

  /** A table is read row by row: the text of each cell stands after those of all earlier rows and cells, with its place. */
  lemma {:induction false} TablesReadByRow(rows: seq<seq<string>>, table: nat, n: nat, row: nat, col: nat)
    requires row < n <= |rows| && col < |rows[row]|
    ensures |RowEntries(rows, table, n)| == CellCount(rows, n) && CellCount(rows, row) + col < CellCount(rows, n)
    ensures var e := RowEntries(rows, table, n)[CellCount(rows, row) + col];
            && e.text == rows[row][col]
            && e.sectionPath == Some("table " + Numeral(table) + " row " + Numeral(row + 1) + " col " + Numeral(col + 1))
  {
    RowsCounted(rows, table, n);
    RowsCounted(rows, table, n - 1);
    if row < n - 1 {
      TablesReadByRow(rows, table, n - 1, row, col);
    } else {
      CellAt(rows[row], table, row + 1, |rows[row]|, col);
    }
  }

  function KeptItems(items: seq<Entry>, n: nat): seq<Entry>
    requires n <= |items|
  {
    if n == 0 then [] else AddItem(KeptItems(items, n - 1), items[n - 1])
  }

  function AddItem(es: seq<Entry>, item: Entry): seq<Entry> {
    if Blank(item.text) then es else es + [item]
  }

  /** `None` is a file that could not be opened; `items` are the texts of its body in reading order. */
  function DocxResult(file: Option<seq<Entry>>): ParseResult {
    if file.None? then Failed else ParsedFrom(Kept(file.value))
  }

  lemma {:induction false} KeptPrefix(a: seq<Entry>, b: seq<Entry>, n: nat)
    requires n <= |a|
    ensures KeptItems(a + b, n) == KeptItems(a, n)
  {
    if n > 0 {
      KeptPrefix(a, b, n - 1);
      assert (a + b)[n - 1] == a[n - 1];
    }
  }

  function Kept(items: seq<Entry>): seq<Entry> {
    KeptItems(items, |items|)
  }

  lemma {:induction false} KeptSnoc(items: seq<Entry>, item: Entry)
    ensures Kept(items + [item]) == AddItem(Kept(items), item)
  {
    KeptPrefix(items, [item], |items|);
  }

  /** The state `append_block` closes over. */
  class DocxAssembler {
    var blocks: seq<TextBlock>
    var textParts: string
    var cursor: nat

    /** The state after these items were appended. */
    ghost predicate Holds(items: seq<Entry>)
      reads this
    {
      var es := Kept(items);
      blocks == LaidOut(es) && textParts == Body(es, |es|) && cursor == Cursor(es, |es|)
    }

    constructor ()
      ensures Holds([])
    {
      blocks, textParts, cursor := [], "", 0;
    }

    method AppendBlock(item: Entry, ghost items: seq<Entry>)
      requires Holds(items)
      modifies this
      ensures Holds(items + [item])
    {
      KeptSnoc(items, item);
      ghost var _, _ := StripSplits(item.text);
      if Strip(item.text) == "" {
        return;
      }
      LaidOutSnoc(Kept(items), item);
      var start := cursor;
      textParts := textParts + item.text;
      cursor := cursor + |item.text|;
      blocks := blocks + [TextBlock(item.text, start, cursor, item.sectionPath, item.locationLabel)];
      textParts := textParts + "\n\n";
      cursor := cursor + 2;
    }

    /** Appends the cells of one row. */
    method AppendRow(cells: seq<string>, table: nat, row: nat, ghost items: seq<Entry>)
      requires Holds(items)
      modifies this
      ensures Holds(items + CellEntries(cells, table, row, |cells|))
    {
      ghost var all := items;
      for i := 0 to |cells|
        invariant all == items + CellEntries(cells, table, row, i) && Holds(all)
      {
        var cell := CellEntry(cells[i], table, row, i + 1);
        AppendBlock(cell, all);
        all := all + [cell];
      }
    }

    method AppendTable(rows: seq<seq<string>>, table: nat, ghost items: seq<Entry>)
      requires Holds(items)
      modifies this
      ensures Holds(items + RowEntries(rows, table, |rows|))
    {
      ghost var all := items;
      for i := 0 to |rows|
        invariant all == items + RowEntries(rows, table, i) && Holds(all)
      {
        AppendRow(rows[i], table, i + 1, all);
        all := all + CellEntries(rows[i], table, i + 1, |rows[i]|);
      }
    }

    method AppendItem(item: BodyItem, paragraphs: nat, tables: nat, ghost items: seq<Entry>)
      requires Holds(items)
      modifies this
      ensures Holds(items + EntriesOf(item, paragraphs, tables))
    {
      if item.Paragraph? {
        AppendBlock(ParagraphEntry(item.text, item.isListItem, paragraphs), items);
      } else {
        AppendTable(item.rows, tables, items);
      }
    }

    method AppendBody(body: seq<BodyItem>)
      requires Holds([])
      modifies this
      ensures Holds(BodyEntries(body, |body|))
    {
      var paragraphOrdinal, tableOrdinal := 0, 0;
      for i := 0 to |body|
        invariant paragraphOrdinal == CountParagraphs(body, i) && tableOrdinal == i - paragraphOrdinal
        invariant Holds(BodyEntries(body, i))
      {
        if body[i].Paragraph? {
          paragraphOrdinal := paragraphOrdinal + 1;
        } else {
          tableOrdinal := tableOrdinal + 1;
        }
        AppendItem(body[i], paragraphOrdinal, tableOrdinal, BodyEntries(body, i));
      }
    }
  }

  function TextsOf(file: Option<seq<BodyItem>>): Option<seq<Entry>> {
    if file.None? then None else Some(BodyEntries(file.value, |file.value|))
  }

  method ParseDocx(file: Option<seq<BodyItem>>) returns (r: ParseResult)
    ensures r == DocxResult(TextsOf(file))
  {
    if file.None? {
      return Failed;
    }
    var assembler := new DocxAssembler();
    assembler.AppendBody(file.value);
    if assembler.blocks == [] {
      return Empty;
    }
    r := Parsed(Strip(assembler.textParts), assembler.blocks);
  }

  lemma {:induction false} KeptItemsNonBlank(items: seq<Entry>, n: nat)
    requires n <= |items|
    ensures forall e <- KeptItems(items, n) :: !Blank(e.text)
  {
    if n > 0 {
      KeptItemsNonBlank(items, n - 1);
    }
  }

  /**
   * DOCX texts are not stripped but the document is. Every offset is exact if and only if the first kept item
   * starts, and the last one ends, with a non-blank character; then consecutive blocks are aligned.
   */
  lemma {:induction false} DocxSliceLaw(items: seq<Entry>)
    requires Kept(items) != []
    ensures var es, r := Kept(items), DocxResult(Some(items));
            && r.Parsed?
            && ((forall b <- r.blocks :: IsSlice(b, r.text, 0)) <==> TrimmedEnds(es))
            && (TrimmedEnds(es) ==> Aligned(r.blocks, r.text))
  {
    var es := Kept(items);
    KeptItemsNonBlank(items, |items|);
    SliceLaw(LaidOut(es), es);
    if TrimmedEnds(es) {
      TrimmedEndsAligned(LaidOut(es), es);
    }
  }

  /** What a DOCX offset always names: the slice of the text before it was stripped. */
  lemma {:induction false} DocxOffsetsBeforeStripping(items: seq<Entry>)
    requires Kept(items) != []
    ensures var es := Kept(items);
            Aligned(DocxResult(Some(items)).blocks, Core(es, |es|)) && Strip(Core(es, |es|) + "\n\n") == DocxResult(Some(items)).text
  {
    var es := Kept(items);
    CoreAligned(LaidOut(es), es, |es|);
    BodyIsCore(es, |es|);
    assert LaidOut(es)[..|es|] == LaidOut(es);
  }

  /** Stripping keeps the laid-out text exactly when the document starts and ends with a non-blank character. */
  lemma {:induction false} DocxStoredWhole(items: seq<Entry>)
    requires Kept(items) != []
    ensures var es := Kept(items);
            DocxResult(Some(items)).text == Core(es, |es|) <==> TrimmedEnds(es)
  {
    var es, r := Kept(items), DocxResult(Some(items));
    DocxSliceLaw(items);
    DocxOffsetsBeforeStripping(items);
    AlignedSlices(r.blocks, Core(es, |es|));
    if TrimmedEnds(es) {
      TrimmedEndsAligned(LaidOut(es), es);
    }
  }

  lemma {:induction false} AlignedSlices(bs: seq<TextBlock>, doc: string)
    requires Aligned(bs, doc)
    ensures forall b <- bs :: IsSlice(b, doc, 0)
  {
  }

  /**
   * What a chunk of a DOCX document cites: in the text before it was stripped, its own text if and only if two
   * newlines separate its blocks. The stored text is that text exactly when the ends of the document are trimmed.
   */
  lemma {:induction false} DocxCitations(items: seq<Entry>, target: int, overlapRatio: real, i: nat)
    requires Kept(items) != [] && target > 0 && 0.0 <= overlapRatio < 1.0
    requires i < |ChunkingOf(DocxResult(Some(items)).blocks, target, overlapRatio).specs|
    ensures var es, r := Kept(items), DocxResult(Some(items));
            var c, core := ChunkingOf(r.blocks, target, overlapRatio).specs[i], Core(es, |es|);
            && c.charStart <= c.charEnd <= |core|
            && (c.text == core[c.charStart..c.charEnd]
                <==> Separated(BlocksOfChunk(r.blocks, target, overlapRatio, i), core))
            && (r.text == core <==> TrimmedEnds(es))
  {
    var es := Kept(items);
    var bs, core := LaidOut(es), Core(es, |es|);
    DocxOffsetsBeforeStripping(items);
    KeptItemsNonBlank(items, |items|);
    AlignedTiles(bs, core);
    ChunkCitesExactlyWhen(bs, target, overlapRatio, core, bs[0].charStart, bs[|bs| - 1].charEnd, i);
    DocxStoredWhole(items);
  }

  // ----- what each parser refuses ------------------------------------------

  lemma {:induction false} NoTurns(captions: seq<Caption>, n: nat)
    requires n <= |captions|
    ensures Turns(captions, n) == [] <==> forall k :: 0 <= k < n ==> Strip(WithoutTags(captions[k].rawText)) == ""
  {
    if n > 0 {
      NoTurns(captions, n - 1);
    }
  }

  /** A transcript without anything said is empty, unless it shows a cue that the library could not read. */
  lemma {:induction false} VttRefusedExactlyWhen(file: VttFile)
    ensures VttResult(file) == Failed <==> file.Malformed? || (file.captions == [] && file.hasCueArrow)
    ensures VttResult(file) == Empty
            <==> && file.Readable? && !(file.captions == [] && file.hasCueArrow)
                 && forall c <- file.captions :: Strip(WithoutTags(c.rawText)) == ""
    ensures VttResult(file) != OcrRequired
  {
    if file.Readable? {
      NoTurns(file.captions, |file.captions|);
      assert forall k :: 0 <= k < |file.captions| ==> file.captions[k] in file.captions;
    }
  }

  lemma {:induction false} NothingKept(items: seq<Entry>, n: nat)
    requires n <= |items|
    ensures KeptItems(items, n) == [] <==> forall k :: 0 <= k < n ==> Blank(items[k].text)
  {
    if n > 0 {
      NothingKept(items, n - 1);
    }
  }

  /** A PDF without pages fails, and one whose pages are all sparse is taken for a scan. */
  lemma {:induction false} PdfRefusedExactlyWhen(file: Option<seq<string>>)
    ensures PdfResult(file) == Failed <==> file.None? || |file.value| == 0
    ensures PdfResult(file) == OcrRequired <==> file.Some? && |file.value| > 0 && forall page <- file.value :: |Ink(page)| < 30
    ensures PdfResult(file) != Empty
  {
  }

  /** A DOCX file is empty exactly when every item in it is blank. */
  lemma {:induction false} DocxRefusedExactlyWhen(file: Option<seq<Entry>>)
    ensures DocxResult(file) == Failed <==> file.None?
    ensures DocxResult(file) == Empty <==> file.Some? && forall item <- file.value :: Blank(item.text)
    ensures DocxResult(file) != OcrRequired
  {
    if file.Some? {
      NothingKept(file.value, |file.value|);
      assert forall k :: 0 <= k < |file.value| ==> file.value[k] in file.value;
    }
  }
}
