/**
 * Normalized statements, and the phrase search behind the language signals: what the normal forms are, which phrases
 * can be found in one, and what the lists of phrases detect.
 */
module Normalization {
  import opened Selections
  import opened Text

  const PUNCTUATION := ".,;:!?\"'`\U{2018}\U{2019}\U{201C}\U{201D}()[]{}"

  function WithoutPunctuation(s: string): string {
    if s == "" then ""
    else if s[0] in PUNCTUATION then WithoutPunctuation(s[1..])
    else [s[0]] + WithoutPunctuation(s[1..])
  }

  /** Replaces every run of whitespace by one space; `inRun` says that one was just written. */
  function Collapse(s: string, inRun: bool): string {
    if s == "" then ""
    else if IsSpace(s[0]) && inRun then Collapse(s[1..], true)
    else if IsSpace(s[0]) then " " + Collapse(s[1..], true)
    else [s[0]] + Collapse(s[1..], false)
  }

  /** `normalize_form` after Unicode folding: `folded` is the compatibility-composed, lower-cased text. */
  function Normalize(folded: string): string {
    Strip(Collapse(WithoutPunctuation(folded), false))
  }

  /** No stripped punctuation, and no whitespace but single spaces. */
  predicate Plain(s: string) {
    && (forall i :: 0 <= i < |s| ==> s[i] !in PUNCTUATION && (IsSpace(s[i]) ==> s[i] == ' '))
    && (forall i :: 0 <= i < |s| - 1 ==> !(s[i] == ' ' && s[i + 1] == ' '))
  }

  predicate IsNormalForm(s: string) {
    Plain(s) && Trimmed(s)
  }

  lemma {:induction false} WithoutPunctuationClean(s: string)
    ensures forall c <- WithoutPunctuation(s) :: c !in PUNCTUATION
    ensures (forall c <- s :: c !in PUNCTUATION) ==> WithoutPunctuation(s) == s
  {
    if s != "" {
      WithoutPunctuationClean(s[1..]);
      assert s == [s[0]] + s[1..];
    }
  }

  lemma {:induction false} PlainCons(c: char, rest: string)
    requires Plain(rest) && c !in PUNCTUATION && (IsSpace(c) ==> c == ' ' && (rest == "" || rest[0] != ' '))
    ensures Plain([c] + rest)
  {
    assert forall i :: 0 < i < |[c] + rest| ==> ([c] + rest)[i] == rest[i - 1];
  }

  lemma {:induction false} CollapsePlain(s: string, inRun: bool)
    requires forall i :: 0 <= i < |s| ==> s[i] !in PUNCTUATION
    ensures Plain(Collapse(s, inRun))
    ensures inRun && Collapse(s, inRun) != "" ==> Collapse(s, inRun)[0] != ' '
  {
    if s != "" {
      CollapsePlain(s[1..], IsSpace(s[0]));
      var rest := Collapse(s[1..], IsSpace(s[0]));
      if !IsSpace(s[0]) {
        PlainCons(s[0], rest);
      } else if !inRun {
        PlainCons(' ', rest);
      }
    }
  }

  lemma {:induction false} CollapseKeepsPlain(s: string, inRun: bool)
    requires Plain(s) && (inRun && s != "" ==> s[0] != ' ')
    ensures Collapse(s, inRun) == s
  {
    if s != "" {
      assert IsSpace(' ');
      assert forall i :: 0 <= i < |s[1..]| ==> s[1..][i] == s[i + 1];
      if IsSpace(s[0]) && |s| > 1 {
        assert s[0 + 1] != ' ';
      }
      CollapseKeepsPlain(s[1..], IsSpace(s[0]));
    }
  }

  /** The normal forms are exactly the texts that normalization leaves alone, and it always yields one. */
  lemma {:induction false} NormalizeIsRetraction(s: string)
    ensures IsNormalForm(Normalize(s))
    ensures IsNormalForm(s) <==> Normalize(s) == s
    ensures Normalize(Normalize(s)) == Normalize(s)
  {
    NormalizeYieldsNormalForm(s);
    NormalFormIsKept(Normalize(s));
    if IsNormalForm(s) {
      NormalFormIsKept(s);
    }
  }

  lemma {:induction false} NormalizeYieldsNormalForm(s: string)
    ensures IsNormalForm(Normalize(s))
  {
    var clean := WithoutPunctuation(s);
    WithoutPunctuationClean(s);
    CollapsePlain(clean, false);
    var text := Collapse(clean, false);
    var lo, hi := StripSplits(text);
    assert forall i :: 0 <= i < hi - lo ==> text[lo..hi][i] == text[lo + i];
  }

  lemma {:induction false} NormalFormIsKept(s: string)
    requires IsNormalForm(s)
    ensures Normalize(s) == s
  {
    WithoutPunctuationClean(s);
    assert WithoutPunctuation(s) == s;
    CollapseKeepsPlain(s, false);
    StripTrimmed(s);
  }

  // ----- what a normalized statement says: its words -----------------------

  function NotPunctuation(): char -> bool {
    (c: char) => c !in PUNCTUATION
  }

  function IsInk(): char -> bool {
    (c: char) => !IsSpace(c) && c !in PUNCTUATION
  }

  /** Removing punctuation is a filter: it deletes the marks and nothing else. */
  lemma {:induction false} OnlyMarksRemoved(s: string)
    ensures WithoutPunctuation(s) == Filtered(s, |s|, NotPunctuation())
  {
    if s != "" {
      OnlyMarksRemoved(s[1..]);
      assert s == [s[0]] + s[1..];
      FilteredConcat([s[0]], s[1..], |s| - 1, NotPunctuation());
      FilteredOne(s[0], NotPunctuation());
    }
  }

  lemma {:induction false} FilteredOne(c: char, p: char -> bool)
    ensures Filtered([c], 1, p) == if p(c) then [c] else []
  {
    assert Filtered([c], 0, p) == [];
  }

  lemma {:induction false} InkOfClean(s: string)
    ensures Ink(WithoutPunctuation(s)) == Filtered(s, |s|, IsInk())
  {
    if s != "" {
      InkOfClean(s[1..]);
      assert s == [s[0]] + s[1..];
      FilteredConcat([s[0]], s[1..], |s| - 1, IsInk());
      FilteredOne(s[0], IsInk());
      if s[0] !in PUNCTUATION {
        InkCons(s[0], WithoutPunctuation(s[1..]));
      }
    }
  }

  lemma {:induction false} CollapseInk(s: string, inRun: bool)
    ensures Ink(Collapse(s, inRun)) == Ink(s)
  {
    if s != "" {
      CollapseInk(s[1..], IsSpace(s[0]));
      if !IsSpace(s[0]) {
        InkCons(s[0], Collapse(s[1..], false));
      } else if !inRun {
        InkCons(' ', Collapse(s[1..], true));
      }
    }
  }

  /** The characters of a normalized statement are those of the statement but whitespace and punctuation, in order. */
  lemma {:induction false} NormalizedInk(s: string)
    ensures Ink(Normalize(s)) == Filtered(s, |s|, IsInk())
  {
    StripInk(Collapse(WithoutPunctuation(s), false));
    CollapseInk(WithoutPunctuation(s), false);
    InkOfClean(s);
  }

  /** Where the run of non-blank characters that starts a text ends. */
  function WordEnd(s: string): (n: nat)
    ensures n <= |s|
    ensures n < |s| ==> IsSpace(s[n])
    ensures s != "" && !IsSpace(s[0]) ==> n > 0
  {
    if s == "" || IsSpace(s[0]) then 0 else 1 + WordEnd(s[1..])
  }

  /** The runs of non-blank characters, without their punctuation; a run of punctuation only is no word. */
  function Words(s: string): seq<string>
    decreases |s|
  {
    if s == "" then []
    else if IsSpace(s[0]) then Words(s[1..])
    else
      var n := WordEnd(s);
      var word := Filtered(s[..n], n, NotPunctuation());
      if word == "" then Words(s[n..]) else [word] + Words(s[n..])
  }

  /** A word: something, without whitespace and punctuation. */
  predicate IsWord(w: string) {
    w != "" && forall i :: 0 <= i < |w| ==> !IsSpace(w[i]) && w[i] !in PUNCTUATION
  }

  predicate AreWords(ws: seq<string>) {
    forall i :: 0 <= i < |ws| ==> IsWord(ws[i])
  }

  lemma {:induction false} WordEndInk(s: string, k: nat)
    requires k < WordEnd(s)
    ensures !IsSpace(s[k])
  {
    if k > 0 {
      WordEndInk(s[1..], k - 1);
    }
  }

  lemma {:induction false} WordEndOf(w: string, rest: string)
    requires (forall i :: 0 <= i < |w| ==> !IsSpace(w[i])) && (rest == "" || IsSpace(rest[0]))
    ensures WordEnd(w + rest) == |w|
  {
    if w == "" {
      assert w + rest == rest;
    } else {
      ConcatHeadTail(w, rest);
      WordEndOf(w[1..], rest);
    }
  }

  /** A text that starts with a word has that word first. */
  lemma {:induction false} WordsCons(w: string, rest: string)
    requires IsWord(w) && (rest == "" || IsSpace(rest[0]))
    ensures Words(w + rest) == [w] + Words(rest)
  {
    WordEndOf(w, rest);
    assert (w + rest)[..|w|] == w && (w + rest)[|w|..] == rest && (w + rest)[0] == w[0];
    FilteredAll(w, |w|, NotPunctuation());
    assert w[..|w|] == w;
  }

  lemma {:induction false} FirstWord(s: string) returns (w: string)
    requires s != "" && !IsSpace(s[0])
    ensures w == WithoutPunctuation(s[..WordEnd(s)])
    ensures Words(s) == if w == "" then Words(s[WordEnd(s)..]) else [w] + Words(s[WordEnd(s)..])
    ensures w != "" ==> IsWord(w)
  {
    var n := WordEnd(s);
    var token := s[..n];
    w := WithoutPunctuation(token);
    OnlyMarksRemoved(token);
    forall i | 0 <= i < |w| ensures !IsSpace(w[i]) && w[i] !in PUNCTUATION {
      FilteredMembers(token, NotPunctuation(), w[i]);
      var k :| 0 <= k < |token| && token[k] == w[i];
      WordEndInk(s, k);
    }
  }

  lemma {:induction false} WordsAreWords(s: string)
    ensures AreWords(Words(s))
    decreases |s|
  {
    if s != "" {
      if IsSpace(s[0]) {
        WordsAreWords(s[1..]);
      } else {
        var w := FirstWord(s);
        WordsAreWords(s[WordEnd(s)..]);
      }
    }
  }

  lemma {:induction false} CleanConcat(a: string, b: string)
    ensures WithoutPunctuation(a + b) == WithoutPunctuation(a) + WithoutPunctuation(b)
  {
    if a == "" {
      assert a + b == b;
    } else {
      ConcatHeadTail(a, b);
      CleanConcat(a[1..], b);
    }
  }

  /** Punctuation makes no difference to the words. */
  lemma {:induction false} WordsOfClean(s: string)
    ensures Words(WithoutPunctuation(s)) == Words(s)
    decreases |s|
  {
    if s != "" {
      if IsSpace(s[0]) {
        WordsOfClean(s[1..]);
        SpaceIsNoMark(s[0]);
        assert ([s[0]] + WithoutPunctuation(s[1..]))[1..] == WithoutPunctuation(s[1..]);
      } else {
        WordsOfClean(s[WordEnd(s)..]);
        WordOfClean(s);
      }
    }
  }

  lemma {:induction false} WordOfClean(s: string)
    requires s != "" && !IsSpace(s[0])
    requires Words(WithoutPunctuation(s[WordEnd(s)..])) == Words(s[WordEnd(s)..])
    ensures Words(WithoutPunctuation(s)) == Words(s)
  {
    var w := FirstWord(s);
    var rest := s[WordEnd(s)..];
    CleanSplit(s, WordEnd(s));
    CleanLead(rest);
    if w == "" {
      assert w + WithoutPunctuation(rest) == WithoutPunctuation(rest);
    } else {
      WordsCons(w, WithoutPunctuation(rest));
    }
  }

  lemma {:induction false} CleanSplit(s: string, n: nat)
    requires n <= |s|
    ensures WithoutPunctuation(s) == WithoutPunctuation(s[..n]) + WithoutPunctuation(s[n..])
  {
    CleanConcat(s[..n], s[n..]);
    assert s == s[..n] + s[n..];
  }

  lemma {:induction false} CleanLead(rest: string)
    requires rest == "" || IsSpace(rest[0])
    ensures WithoutPunctuation(rest) == "" || IsSpace(WithoutPunctuation(rest)[0])
  {
    if rest != "" {
      SpaceIsNoMark(rest[0]);
    }
  }

  lemma {:induction false} SpaceIsNoMark(c: char)
    requires IsSpace(c)
    ensures c !in PUNCTUATION
  {
  }

  lemma {:induction false} CollapseWord(w: string, rest: string)
    requires forall i :: 0 <= i < |w| ==> !IsSpace(w[i])
    ensures Collapse(w + rest, false) == w + Collapse(rest, false)
  {
    if w == "" {
      assert w + rest == rest;
    } else {
      ConcatHeadTail(w, rest);
      CollapseWord(w[1..], rest);
      assert w == [w[0]] + w[1..];
    }
  }

  /** Whether a space was just written matters only for the first one. */
  lemma {:induction false} CollapseStripped(s: string)
    ensures LStrip(Collapse(s, true)) == LStrip(Collapse(s, false))
  {
    if s != "" && IsSpace(s[0]) {
      assert (" " + Collapse(s[1..], true))[1..] == Collapse(s[1..], true);
    }
  }

  lemma {:induction false} CollapseNoLead(s: string)
    requires forall i :: 0 <= i < |s| ==> s[i] !in PUNCTUATION
    ensures var rest := Collapse(s, true);
            && (rest != "" ==> !IsSpace(rest[0]))
            && (Blank(rest) <==> rest == "")
            && Strip(rest) == RStrip(rest) == Strip(Collapse(s, false))
  {
    CollapsePlain(s, true);
    CollapseStripped(s);
    var rest := Collapse(s, true);
    assert rest != "" ==> !IsSpace(rest[0]);
    assert LStrip(rest) == rest;
  }

  /** Collapsing whitespace and stripping leaves the words, with one space between each two. */
  lemma {:induction false} CollapseJoinsWords(s: string)
    requires forall i :: 0 <= i < |s| ==> s[i] !in PUNCTUATION
    ensures Strip(Collapse(s, false)) == Join(" ", Words(s))
    decreases |s|
  {
    if s != "" {
      if IsSpace(s[0]) {
        CollapseJoinsWords(s[1..]);
        CollapseNoLead(s[1..]);
        assert (" " + Collapse(s[1..], true))[1..] == Collapse(s[1..], true);
        assert Strip(Collapse(s, false)) == Strip(Collapse(s[1..], true));
      } else {
        var n := WordEnd(s);
        var w, rest := s[..n], s[n..];
        assert s == w + rest && forall i :: 0 <= i < |rest| ==> rest[i] == s[n + i];
        forall i | 0 <= i < |w| ensures !IsSpace(w[i]) {
          WordEndInk(s, i);
        }
        CollapseJoinsWords(rest);
        CollapseWord(w, rest);
        WordsCons(w, rest);
        WordsAreWords(rest);
        WordThenRest(w, rest);
      }
    }
  }

  lemma {:induction false} WordThenRest(w: string, rest: string)
    requires IsWord(w) && (rest == "" || IsSpace(rest[0])) && forall i :: 0 <= i < |rest| ==> rest[i] !in PUNCTUATION
    requires Strip(Collapse(rest, false)) == Join(" ", Words(rest)) && AreWords(Words(rest))
    ensures Strip(w + Collapse(rest, false)) == Join(" ", [w] + Words(rest))
  {
    var ws := Words(rest);
    assert ([w] + ws)[1..] == ws;
    if rest == "" {
      assert w + "" == w;
      StripTrimmed(w);
    } else {
      var tail := Collapse(rest[1..], true);
      CollapseNoLead(rest[1..]);
      assert Collapse(rest, false) == " " + tail;
      assert (" " + tail)[1..] == tail;
      assert w + (" " + tail) == w + " " + tail;
      if tail == "" {
        StripAfter(w, " ");
        assert w + " " + tail == w + " ";
        if ws != [] {
          JoinStarts(" ", ws);
        }
      } else {
        var _, _ := StripSplits(tail);
        assert LStrip(" " + tail) == LStrip(tail) && ws != [];
        RStripConcat(w + " ", tail);
        assert (w + " " + tail)[0] == w[0];
        assert LStrip(w + " " + tail) == w + " " + tail;
      }
    }
  }

  /** A normalized statement is the statement's words, with one space between each two. */
  lemma {:induction false} NormalizeJoinsWords(s: string)
    ensures Normalize(s) == Join(" ", Words(s))
  {
    WithoutPunctuationClean(s);
    CollapseJoinsWords(WithoutPunctuation(s));
    WordsOfClean(s);
  }

  lemma {:induction false} WordsOfJoin(ws: seq<string>)
    requires AreWords(ws)
    ensures Words(Join(" ", ws)) == ws
  {
    if |ws| == 1 {
      WordsCons(ws[0], "");
      assert ws[0] + "" == ws[0];
    } else if |ws| > 1 {
      WordsOfJoin(ws[1..]);
      var rest := " " + Join(" ", ws[1..]);
      assert rest[1..] == Join(" ", ws[1..]);
      WordsCons(ws[0], rest);
      assert ws[0] + rest == ws[0] + " " + Join(" ", ws[1..]);
    }
  }

  /** Two statements normalize alike if and only if they have the same words. */
  lemma {:induction false} NormalizedAlike(a: string, b: string)
    ensures Normalize(a) == Normalize(b) <==> Words(a) == Words(b)
  {
    NormalizeJoinsWords(a);
    NormalizeJoinsWords(b);
    WordsAreWords(a);
    WordsAreWords(b);
    WordsOfJoin(Words(a));
    WordsOfJoin(Words(b));
  }

  // ----- phrase detectors --------------------------------------------------

  predicate OccursAt(text: string, phrase: string, i: nat) {
    i + |phrase| <= |text| && text[i..i + |phrase|] == phrase
  }

  ghost predicate Contains(text: string, phrase: string) {
    exists i: nat :: OccursAt(text, phrase, i)
  }

  method Search(text: string, phrases: seq<string>) returns (found: bool, at: nat)
    ensures found <==> exists k :: 0 <= k < |phrases| && Contains(text, phrases[k])
    ensures found ==> at < |phrases| && Contains(text, phrases[at]) && forall k :: 0 <= k < at ==> !Contains(text, phrases[k])
  {
    found, at := false, 0;
    while at < |phrases|
      invariant at <= |phrases|
      invariant forall k :: 0 <= k < at ==> !Contains(text, phrases[k])
    {
      var hit := Occurs(text, phrases[at]);
      if hit {
        return true, at;
      }
      at := at + 1;
    }
  }

  method Occurs(text: string, phrase: string) returns (hit: bool)
    ensures hit <==> Contains(text, phrase)
  {
    var i := 0;
    while i + |phrase| <= |text|
      invariant forall j: nat :: j < i ==> !OccursAt(text, phrase, j)
    {
      if OccursAt(text, phrase, i) {
        return true;
      }
      i := i + 1;
    }
    return false;
  }

  const CANCELLATION_PHRASES: seq<string> := [
    "cancel", "cancelled", "canceled", "no longer needed", "won't proceed", "will not proceed", "abandoned",
    "scrapped", "called off", "dropped entirely", "no longer pursuing"]

  const BLOCKING_PHRASES: seq<string> := [
    "cannot proceed", "can't proceed", "unable to proceed", "is now blocking", "work is blocked", "stopped work",
    "blocking progress", "halted"]

  /** Some statement makes the detector find the phrase. */
  ghost predicate Findable(phrase: string) {
    exists folded :: Contains(Normalize(folded), phrase)
  }

  /** A trimmed phrase can be found in some statement if and only if it is itself in normal form. */
  lemma {:induction false} FindableIsNormal(phrase: string)
    requires Trimmed(phrase)
    ensures Findable(phrase) <==> IsNormalForm(phrase)
  {
    if IsNormalForm(phrase) {
      NormalFormIsKept(phrase);
      assert OccursAt(phrase, phrase, 0);
      assert Contains(Normalize(phrase), phrase);
    }
    forall folded | Contains(Normalize(folded), phrase) ensures IsNormalForm(phrase) {
      NormalizeYieldsNormalForm(folded);
      PartOfNormal(Normalize(folded), phrase);
    }
  }

  lemma {:induction false} PartOfNormal(text: string, phrase: string)
    requires Plain(text) && Trimmed(phrase) && Contains(text, phrase)
    ensures IsNormalForm(phrase)
  {
    var i: nat :| OccursAt(text, phrase, i);
    assert forall j :: 0 <= j < |phrase| ==> phrase[j] == text[i + j];
  }

  /** So the two listed phrases with an apostrophe never fire: normalization removes it from the statement. */
  lemma {:induction false} ApostrophePhrasesNeverFire()
    ensures "won't proceed" in CANCELLATION_PHRASES && !Findable("won't proceed")
    ensures "can't proceed" in BLOCKING_PHRASES && !Findable("can't proceed")
  {
    assert CANCELLATION_PHRASES[4] == "won't proceed" && BLOCKING_PHRASES[1] == "can't proceed";
    var apostrophe := PUNCTUATION[7];
    assert "won't proceed"[3] == apostrophe && "can't proceed"[3] == apostrophe;
    FindableIsNormal("won't proceed");
    FindableIsNormal("can't proceed");
  }

  // ----- the detectors behind a reconciliation -----------------------------

  const FUTURE_INTENT_PHRASES: seq<string> := [
    "will finish", "will send", "will complete", "will deploy", "will ship", "plans to", "planning to", "going to",
    "intends to", "intend to", "expects to", "expected to", "aims to", "hopes to", "scheduled to", "is set to", "due to"]

  const COMPLETION_PHRASES: seq<string> := [
    "is complete", "is now complete", "has been sent", "was sent", "has been approved", "was approved",
    "has been deployed", "was deployed", "has shipped", "was shipped", "shipped", "is done", "marked complete",
    "marked as complete", "completed on", "has finished", "finished", "delivered", "signed off", "signed-off",
    "closed out", "wrapped up"]

  const SUPERSESSION_PHRASES: seq<string> := [
    "instead of", "replaces", "replacing", "supersedes", "superseding", "in place of", "rather than", "overrides",
    "overriding"]

  ghost predicate Fires(text: string, phrases: seq<string>) {
    exists k :: 0 <= k < |phrases| && Contains(text, phrases[k])
  }

  /** A completion is stated unless the same statement speaks of the future. */
  ghost predicate DetectsCompletion(text: string) {
    !Fires(text, FUTURE_INTENT_PHRASES) && Fires(text, COMPLETION_PHRASES)
  }

  ghost predicate DetectsCancellation(text: string) {
    Fires(text, CANCELLATION_PHRASES)
  }

  ghost predicate DetectsSupersession(text: string) {
    Fires(text, SUPERSESSION_PHRASES)
  }

  /** Letters one of which every completion and every cancellation phrase has. */
  predicate IsOneOf(c: char) {
    c == 'd' || c == 'n' || c == 'm' || c == 'w' || c == 'f' || c == 'g' || c == 'o' || c == 'b'
  }

  predicate HasOneOf(phrase: string) {
    exists j :: 0 <= j < |phrase| && IsOneOf(phrase[j])
  }

  /** A text without any of these letters contains no phrase that has one. */
  lemma {:induction false} NeverFires(text: string, phrases: seq<string>)
    requires forall k :: 0 <= k < |phrases| ==> HasOneOf(phrases[k])
    requires forall i :: 0 <= i < |text| ==> !IsOneOf(text[i])
    ensures !Fires(text, phrases)
  {
    forall k, i: nat | 0 <= k < |phrases| ensures !OccursAt(text, phrases[k], i) {
      var j :| 0 <= j < |phrases[k]| && IsOneOf(phrases[k][j]);
      assert i + |phrases[k]| <= |text| ==> text[i..i + |phrases[k]|][j] == text[i + j];
    }
  }

  lemma {:induction false} CompletionPhrases(k: nat)
    requires 0 <= k < 11
    ensures HasOneOf(COMPLETION_PHRASES[k])
  {
    assert IsOneOf(COMPLETION_PHRASES[0][4]);
    assert IsOneOf(COMPLETION_PHRASES[1][3]);
    assert IsOneOf(COMPLETION_PHRASES[2][4]);
    assert IsOneOf(COMPLETION_PHRASES[3][0]);
    assert IsOneOf(COMPLETION_PHRASES[4][4]);
    assert IsOneOf(COMPLETION_PHRASES[5][0]);
    assert IsOneOf(COMPLETION_PHRASES[6][4]);
    assert IsOneOf(COMPLETION_PHRASES[7][0]);
    assert IsOneOf(COMPLETION_PHRASES[8][10]);
    assert IsOneOf(COMPLETION_PHRASES[9][0]);
    assert IsOneOf(COMPLETION_PHRASES[10][6]);
  }

  lemma {:induction false} MoreCompletionPhrases(k: nat)
    requires 11 <= k < 22
    ensures HasOneOf(COMPLETION_PHRASES[k])
  {
    assert IsOneOf(COMPLETION_PHRASES[11][3]);
    assert IsOneOf(COMPLETION_PHRASES[12][0]);
    assert IsOneOf(COMPLETION_PHRASES[13][0]);
    assert IsOneOf(COMPLETION_PHRASES[14][1]);
    assert IsOneOf(COMPLETION_PHRASES[15][4]);
    assert IsOneOf(COMPLETION_PHRASES[16][0]);
    assert IsOneOf(COMPLETION_PHRASES[17][0]);
    assert IsOneOf(COMPLETION_PHRASES[18][2]);
    assert IsOneOf(COMPLETION_PHRASES[19][2]);
    assert IsOneOf(COMPLETION_PHRASES[20][2]);
    assert IsOneOf(COMPLETION_PHRASES[21][0]);
  }

  lemma {:induction false} CancellationPhrases(k: nat)
    requires 0 <= k < 11
    ensures HasOneOf(CANCELLATION_PHRASES[k])
  {
    assert IsOneOf(CANCELLATION_PHRASES[0][2]);
    assert IsOneOf(CANCELLATION_PHRASES[1][2]);
    assert IsOneOf(CANCELLATION_PHRASES[2][2]);
    assert IsOneOf(CANCELLATION_PHRASES[3][0]);
    assert IsOneOf(CANCELLATION_PHRASES[4][0]);
    assert IsOneOf(CANCELLATION_PHRASES[5][0]);
    assert IsOneOf(CANCELLATION_PHRASES[6][1]);
    assert IsOneOf(CANCELLATION_PHRASES[7][7]);
    assert IsOneOf(CANCELLATION_PHRASES[8][5]);
    assert IsOneOf(CANCELLATION_PHRASES[9][0]);
    assert IsOneOf(CANCELLATION_PHRASES[10][0]);
  }

  /** A statement that supersedes, and neither completes nor cancels. */
  const SUPERSEDING_STATEMENT := "this replaces it"

  lemma {:induction false} SupersedingLetters(i: nat)
    requires i < |SUPERSEDING_STATEMENT|
    ensures !IsOneOf(SUPERSEDING_STATEMENT[i]) && SUPERSEDING_STATEMENT[i] !in PUNCTUATION
  {
  }

  lemma {:induction false} SupersedingPhrase(text: string)
    requires text == SUPERSEDING_STATEMENT
    ensures OccursAt(text, SUPERSESSION_PHRASES[1], 5)
  {
    var found, phrase := text[5..13], SUPERSESSION_PHRASES[1];
    assert |found| == |phrase| == 8;
    assert found[0] == phrase[0] && found[1] == phrase[1] && found[2] == phrase[2] && found[3] == phrase[3];
    assert found[4] == phrase[4] && found[5] == phrase[5] && found[6] == phrase[6] && found[7] == phrase[7];
  }

  /** The phrase search finds supersession language in it, and no completion or cancellation. */
  lemma {:induction false} SupersedingStatementDetected(text: string)
    requires text == SUPERSEDING_STATEMENT
    ensures DetectsSupersession(text) && !DetectsCompletion(text) && !DetectsCancellation(text)
  {
    SupersedingPhrase(text);
    forall i | 0 <= i < |text| ensures !IsOneOf(text[i]) {
      SupersedingLetters(i);
    }
    forall k | 0 <= k < |COMPLETION_PHRASES| ensures HasOneOf(COMPLETION_PHRASES[k]) {
      if k < 11 {
        CompletionPhrases(k);
      } else {
        MoreCompletionPhrases(k);
      }
    }
    forall k | 0 <= k < |CANCELLATION_PHRASES| ensures HasOneOf(CANCELLATION_PHRASES[k]) {
      CancellationPhrases(k);
    }
    NeverFires(text, COMPLETION_PHRASES);
    NeverFires(text, CANCELLATION_PHRASES);
  }

  lemma {:induction false} SupersedingStatementIsNormal(text: string)
    requires text == SUPERSEDING_STATEMENT
    ensures Normalize(text) == text
  {
    forall i | 0 <= i < |text| ensures text[i] !in PUNCTUATION {
      SupersedingLetters(i);
    }
    assert text[4] == ' ' && text[13] == ' ';
    NormalFormIsKept(text);
  }
}
