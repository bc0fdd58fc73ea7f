/** Gmail messages: quote boundary, header block, chunked text. */
module Email {
  import opened Text
  import opened Blocks
  import opened Splitting
  import opened Chunking
  import opened PlainText
  import opened Parsers

  // ----- lines -------------------------------------------------------------

  /** The characters at which Python's `str.splitlines` ends a line. */
  predicate IsLineBreak(c: char) {
    '\n' <= c <= '\r' || '\U{001C}' <= c <= '\U{001E}' || c == '\U{0085}' || c == '\U{2028}' || c == '\U{2029}'
  }

  /** The end of the line that contains `pos`, with its terminator; CR LF is one terminator. */
  function LineEnd(s: string, pos: nat): (end: nat)
    requires pos < |s|
    ensures pos < end <= |s|
    decreases |s| - pos
  {
    if s[pos] == '\r' && pos + 1 < |s| && s[pos + 1] == '\n' then pos + 2
    else if IsLineBreak(s[pos]) || pos + 1 == |s| then pos + 1
    else LineEnd(s, pos + 1)
  }

  function RStripNewlines(s: string): string {
    if s != "" && s[|s| - 1] == '\n' then RStripNewlines(s[..|s| - 1]) else s
  }

  function LineAt(body: string, pos: nat): string
    requires pos < |body|
  {
    RStripNewlines(body[pos..LineEnd(body, pos)])
  }

  // ----- markers -----------------------------------------------------------

  /** The signature delimiter of section 4.3 of RFC 3676: two dashes and at most one whitespace character. */
  predicate IsSignature(line: string) {
    line == "--" || (|line| == 3 && line[..2] == "--" && IsSpace(line[2]))
  }

  predicate IsQuoted(line: string) {
    var text := LStrip(line);
    text != "" && text[0] == '>'
  }

  /** `heads` stands for the three reply and forward header patterns; it may be any predicate on lines. */
  predicate IsMarker(line: string, heads: string -> bool) {
    heads(line) || IsSignature(line)
  }

  /** Quoted history or a signature starts at the line at `pos`. */
  predicate StartsAt(body: string, pos: nat, heads: string -> bool)
    requires pos < |body|
  {
    var next := LineEnd(body, pos);
    IsMarker(LineAt(body, pos), heads)
    || (IsQuoted(LineAt(body, pos)) && next < |body| && IsQuoted(LineAt(body, next))
        && !IsMarker(LineAt(body, next), heads))
  }

  /** The first line from `pos` on at which quoted history starts, or the end of the body. */
  function BoundaryFrom(body: string, pos: nat, heads: string -> bool): (at: nat)
    requires pos <= |body|
    ensures pos <= at <= |body|
    decreases |body| - pos
  {
    if pos == |body| || StartsAt(body, pos, heads) then pos else BoundaryFrom(body, LineEnd(body, pos), heads)
  }

  method FindQuoteBoundary(body: string, heads: string -> bool) returns (at: nat)
    ensures at == BoundaryFrom(body, 0, heads)
  {
    var offset, consecutiveQuoteLines, quoteRunStart := 0, 0, 0;
    while offset < |body|
      invariant 0 <= offset <= |body| && consecutiveQuoteLines <= 1
      invariant consecutiveQuoteLines == 0 ==> BoundaryFrom(body, offset, heads) == BoundaryFrom(body, 0, heads)
      invariant consecutiveQuoteLines == 1 ==>
                  && 0 <= quoteRunStart < |body| && LineEnd(body, quoteRunStart) == offset
                  && IsQuoted(LineAt(body, quoteRunStart)) && !IsMarker(LineAt(body, quoteRunStart), heads)
                  && BoundaryFrom(body, quoteRunStart, heads) == BoundaryFrom(body, 0, heads)
      decreases |body| - offset
    {
      var line := LineAt(body, offset);
      if IsMarker(line, heads) {
        return offset;
      }
      if IsQuoted(line) {
        if consecutiveQuoteLines == 0 {
          quoteRunStart := offset;
        }
        consecutiveQuoteLines := consecutiveQuoteLines + 1;
        if consecutiveQuoteLines >= 2 {
          return quoteRunStart;
        }
      } else {
        consecutiveQuoteLines := 0;
      }
      offset := LineEnd(body, offset);
    }
    return |body|;
  }

  /** `pos` is the offset of a line, or the end of the body. */
  predicate IsLineStart(body: string, from: nat, pos: nat)
    decreases |body| - from
  {
    from == pos || (from < |body| && IsLineStart(body, LineEnd(body, from), pos))
  }

  /** The boundary is the first line start where quoted history starts; there is none before it. */
  lemma {:induction false} BoundaryIsFirst(body: string, from: nat, heads: string -> bool)
    requires from <= |body|
    ensures var at := BoundaryFrom(body, from, heads);
            && IsLineStart(body, from, at)
            && (at < |body| ==> StartsAt(body, at, heads))
            && forall pos :: from <= pos < at && IsLineStart(body, from, pos) ==> !StartsAt(body, pos, heads)
    decreases |body| - from
  {
    if !(from == |body| || StartsAt(body, from, heads)) {
      var next := LineEnd(body, from);
      BoundaryIsFirst(body, next, heads);
      forall pos | from <= pos < BoundaryFrom(body, from, heads) && IsLineStart(body, from, pos)
        ensures !StartsAt(body, pos, heads)
      {
        if pos != from {
          LineStartsAfter(body, next, pos);
        }
      }
    }
  }

  lemma {:induction false} LineStartsAfter(body: string, from: nat, pos: nat)
    requires IsLineStart(body, from, pos)
    ensures from <= pos
    decreases |body| - from
  {
    if from != pos {
      LineStartsAfter(body, LineEnd(body, from), pos);
    }
  }

  lemma {:induction false} LineEndOfPrefix(s: string, pos: nat, n: nat)
    requires pos < |s| && n <= |s| && LineEnd(s, pos) <= n
    ensures LineEnd(s[..n], pos) == LineEnd(s, pos)
    decreases |s| - pos
  {
    if !(s[pos] == '\r' && pos + 1 < |s| && s[pos + 1] == '\n') && !IsLineBreak(s[pos]) && pos + 1 < |s| {
      LineEndOfPrefix(s, pos + 1, n);
    }
  }

  lemma {:induction false} LineOfPrefix(s: string, pos: nat, n: nat)
    requires pos < |s| && n <= |s| && LineEnd(s, pos) <= n
    ensures LineEnd(s[..n], pos) == LineEnd(s, pos) && LineAt(s[..n], pos) == LineAt(s, pos)
  {
    LineEndOfPrefix(s, pos, n);
    assert s[..n][pos..LineEnd(s, pos)] == s[pos..LineEnd(s, pos)];
  }

  /** Cutting at a line start at or before the boundary leaves nothing to cut. */
  lemma {:induction false} TrimmedHasNoBoundary(body: string, from: nat, n: nat, heads: string -> bool)
    requires from <= |body| && from <= n <= BoundaryFrom(body, from, heads) && IsLineStart(body, from, n)
    ensures BoundaryFrom(body[..n], from, heads) == n
    decreases |body| - from
  {
    if from < n {
      var next := LineEnd(body, from);
      LineStartsAfter(body, next, n);
      LineOfPrefix(body, from, n);
      if next < n {
        LineStartNext(body, next, n);
        LineOfPrefix(body, next, n);
      }
      TrimmedHasNoBoundary(body, next, n, heads);
    }
  }

  lemma {:induction false} LineStartNext(body: string, from: nat, n: nat)
    requires from < n <= |body| && IsLineStart(body, from, n)
    ensures LineEnd(body, from) <= n
  {
    LineStartsAfter(body, LineEnd(body, from), n);
  }

  /** Trimming a trimmed body changes nothing. */
  lemma {:induction false} TrimmingIsIdempotent(body: string, heads: string -> bool)
    ensures var visible := body[..BoundaryFrom(body, 0, heads)];
            visible[..BoundaryFrom(visible, 0, heads)] == visible
  {
    BoundaryIsFirst(body, 0, heads);
    TrimmedHasNoBoundary(body, 0, BoundaryFrom(body, 0, heads), heads);
  }

  // ----- signatures and line terminators -----------------------------------

  /** What ends a raw line: CR LF, one other line break, or nothing at the end of the body. */
  function TerminatorOf(raw: string): string {
    var n := |raw|;
    if n >= 2 && raw[n - 2] == '\r' && raw[n - 1] == '\n' then "\r\n"
    else if n >= 1 && IsLineBreak(raw[n - 1]) then [raw[n - 1]]
    else ""
  }

  function ContentOf(raw: string): string {
    raw[..|raw| - |TerminatorOf(raw)|]
  }

  function RawLine(body: string, pos: nat): string
    requires pos < |body|
  {
    body[pos..LineEnd(body, pos)]
  }

  /** A line holds no line break before its terminator. */
  lemma {:induction false} ContentHasNoBreak(body: string, pos: nat)
    requires pos < |body|
    ensures forall c <- ContentOf(RawLine(body, pos)) :: !IsLineBreak(c)
    decreases |body| - pos
  {
    var raw := RawLine(body, pos);
    if (body[pos] == '\r' && pos + 1 < |body| && body[pos + 1] == '\n') || IsLineBreak(body[pos]) || pos + 1 == |body| {
      assert raw[0] == body[pos];
    } else {
      var rest := RawLine(body, pos + 1);
      ContentHasNoBreak(body, pos + 1);
      assert raw == [body[pos]] + rest;
      assert ContentOf(raw) == [body[pos]] + ContentOf(rest);
    }
  }

  /**
   * When a line is a signature delimiter. Only a bare newline is stripped from a line, so the delimiter of RFC 3676,
   * two dashes and a space, is recognized before a bare newline or at the end of the body, and not before CR LF or
   * any other line break; two dashes alone are recognized before all of them.
   */
  lemma {:induction false} SignatureExactlyWhen(body: string, pos: nat)
    requires pos < |body|
    ensures var content, terminator := ContentOf(RawLine(body, pos)), TerminatorOf(RawLine(body, pos));
            IsSignature(LineAt(body, pos))
            <==> content == "--" || (terminator in {"", "\n"} && |content| == 3 && content[..2] == "--" && IsSpace(content[2]))
  {
    ContentHasNoBreak(body, pos);
    SignatureOfRaw(RawLine(body, pos));
  }

  lemma {:induction false} SignatureOfRaw(raw: string)
    requires forall c <- ContentOf(raw) :: !IsLineBreak(c)
    ensures var content, terminator := ContentOf(raw), TerminatorOf(raw);
            IsSignature(RStripNewlines(raw))
            <==> content == "--" || (terminator in {"", "\n"} && |content| == 3 && content[..2] == "--" && IsSpace(content[2]))
  {
    var content, terminator := ContentOf(raw), TerminatorOf(raw);
    KeepsNoNewline(content);
    if terminator == "\n" {
      assert raw[..|raw| - 1] == content;
    } else if terminator == "\r\n" {
      assert raw[..|raw| - 1] == content + "\r";
      EndsInBreak(content, '\r');
    } else if terminator == "" {
      assert raw == content;
    } else {
      assert raw == content + [raw[|raw| - 1]];
      EndsInBreak(content, raw[|raw| - 1]);
    }
  }

  lemma {:induction false} KeepsNoNewline(content: string)
    requires forall c <- content :: !IsLineBreak(c)
    ensures RStripNewlines(content) == content
  {
    assert content != "" ==> content[|content| - 1] in content;
  }

  lemma {:induction false} EndsInBreak(content: string, c: char)
    requires IsLineBreak(c) && c != '\n'
    ensures RStripNewlines(content + [c]) == content + [c] && (IsSignature(content + [c]) <==> content == "--")
  {
    var line := content + [c];
    assert line[|content|] == c && line[..|content|] == content;
  }

  lemma {:induction false} LineEndsAt(s: string, pos: nat, e: nat)
    requires pos <= e < |s| && IsLineBreak(s[e]) && forall i :: pos <= i < e ==> !IsLineBreak(s[i])
    ensures LineEnd(s, pos) == if s[e] == '\r' && e + 1 < |s| && s[e + 1] == '\n' then e + 2 else e + 1
    decreases e - pos
  {
    if pos < e {
      LineEndsAt(s, pos + 1, e);
    }
  }

  lemma {:induction false} LastLine(s: string, pos: nat)
    requires pos < |s| && forall i :: pos <= i < |s| ==> !IsLineBreak(s[i])
    ensures LineEnd(s, pos) == |s|
    decreases |s| - pos
  {
    if pos + 1 < |s| {
      LastLine(s, pos + 1);
    }
  }

  /** The message "-- ", CR LF, name: no line of it is recognized, so the name stays visible. */
  lemma {:induction false} CrLfSignatureIsKept(body: string, name: string, heads: string -> bool)
    requires body == "-- \r\n" + name && name != "" && forall i :: 0 <= i < |name| ==> !IsLineBreak(name[i])
    requires !IsMarker(name, heads) && !heads("-- \r")
    ensures BoundaryFrom(body, 0, heads) == |body|
  {
    assert body[0] == '-' && body[3] == '\r' && body[4] == '\n' && body[5..] == name;
    LineEndsAt(body, 0, 3);
    assert body[0..5] == "-- " + ['\r', '\n'] && body[0..5][..4] == "-- " + ['\r'];
    EndsInBreak("-- ", '\r');
    assert LineAt(body, 0) == "-- \r";
    assert forall i :: 5 <= i < |body| ==> body[i] == name[i - 5];
    LastLine(body, 5);
    KeepsNoNewline(name);
    assert body[5..|body|] == name;
  }

  /** With a bare newline the same message ends where its signature starts. */
  lemma {:induction false} BareSignatureIsCut(body: string, name: string, heads: string -> bool)
    requires body == "-- \n" + name
    ensures BoundaryFrom(body, 0, heads) == 0
  {
    assert body[0] == '-' && body[3] == '\n';
    LineEndsAt(body, 0, 3);
    assert body[0..4] == "-- " + ['\n'] && body[0..4][..3] == "-- ";
    KeepsNoNewline("-- ");
    assert LineAt(body, 0) == "-- ";
  }

  // ----- the header block --------------------------------------------------

  /** One header line: a non-empty label without newlines, then a value that may hold anything. */
  datatype Field = Field(name: string, value: string)

  datatype Headers = Headers(
    subject: Option<string>, from: Option<string>, to: Option<string>, cc: Option<string>, date: Option<string>,
    messageId: string, threadId: string)

  function OrElse(value: Option<string>, default: string): string {
    if value.None? || value.value == "" then default else value.value
  }

  function IfStated(name: string, value: Option<string>): seq<Field> {
    if value.None? || value.value == "" then [] else [Field(name, value.value)]
  }

  function Fields(h: Headers): seq<Field> {
    [Field("Subject", OrElse(h.subject, "(no subject)")), Field("From", OrElse(h.from, "(unknown sender)"))]
    + IfStated("To", h.to) + IfStated("Cc", h.cc)
    + [Field("Date", OrElse(h.date, "(unknown date)")), Field("Message-ID", h.messageId), Field("Thread-ID", h.threadId)]
  }

  function Lines(fs: seq<Field>): (ls: seq<string>)
    ensures |ls| == |fs| && forall i :: 0 <= i < |fs| ==> ls[i] == fs[i].name + ": " + fs[i].value
  {
    seq(|fs|, i requires 0 <= i < |fs| => fs[i].name + ": " + fs[i].value)
  }

  /** The stored text and the offset at which the body starts in it. */
  function NormalizedEmail(h: Headers, body: string): (r: (string, nat))
    ensures r.1 <= |r.0| && r.0[r.1..] == body
  {
    var header := Join("\n", Lines(Fields(h)));
    assert (header + "\n\n" + body)[|header| + 2..] == body;
    (header + "\n\n" + body, |header| + 2)
  }

  /** `str.find("\n\n")` from `pos` on. */
  function FindBlankLine(s: string, pos: nat): int
    requires pos <= |s|
    decreases |s| - pos
  {
    if pos + 2 > |s| then -1
    else if s[pos] == '\n' && s[pos + 1] == '\n' then pos
    else FindBlankLine(s, pos + 1)
  }

  /** Where ingestion takes the body to start: after the first blank line. */
  function RecoveredBodyStart(full: string): (at: nat)
    ensures at <= |full|
  {
    FoundInRange(full, 0);
    var at := FindBlankLine(full, 0);
    if at != -1 then at + 2 else 0
  }

  lemma {:induction false} FoundInRange(s: string, pos: nat)
    requires pos <= |s|
    ensures var at := FindBlankLine(s, pos); at == -1 || (pos <= at && at + 2 <= |s| && s[at] == '\n' == s[at + 1])
    decreases |s| - pos
  {
    if pos + 2 <= |s| && !(s[pos] == '\n' && s[pos + 1] == '\n') {
      FoundInRange(s, pos + 1);
    }
  }

  /** No blank line inside, and no newline at the end. */
  predicate SingleSpaced(s: string) {
    (forall i :: 0 <= i < |s| - 1 ==> !(s[i] == '\n' && s[i + 1] == '\n')) && (s != "" ==> s[|s| - 1] != '\n')
  }

  lemma {:induction false} FindsFirst(s: string, pos: nat, n: nat)
    requires pos <= n && n + 2 <= |s| && s[n] == '\n' == s[n + 1]
    ensures FindBlankLine(s, pos) == n <==> forall i :: pos <= i < n ==> !(s[i] == '\n' && s[i + 1] == '\n')
    decreases n - pos
  {
    if pos < n && !(s[pos] == '\n' && s[pos + 1] == '\n') {
      FindsFirst(s, pos + 1, n);
    }
  }

  lemma {:induction false} SingleSpacedJoin(a: string, b: string)
    requires a != "" && b != "" && b[0] != '\n'
    ensures SingleSpaced(a + "\n" + b) <==> SingleSpaced(a) && SingleSpaced(b)
  {
    var s, n := a + "\n" + b, |a|;
    assert forall i :: 0 <= i < n ==> s[i] == a[i];
    assert forall i :: 0 <= i < |b| ==> s[n + 1 + i] == b[i];
    if SingleSpaced(s) {
      assert s[n - 1 + 1] == '\n';
      assert s[n - 1] != '\n';
      forall i | 0 <= i < |b| - 1 ensures !(b[i] == '\n' && b[i + 1] == '\n') {
        assert !(s[n + 1 + i] == '\n' && s[n + 1 + i + 1] == '\n');
      }
    }
  }

  lemma {:induction false} SingleSpacedLines(ls: seq<string>)
    requires ls != [] && forall i :: 0 <= i < |ls| ==> ls[i] != "" && ls[i][0] != '\n'
    ensures Join("\n", ls) != "" && Join("\n", ls)[0] != '\n'
    ensures SingleSpaced(Join("\n", ls)) <==> forall i :: 0 <= i < |ls| ==> SingleSpaced(ls[i])
  {
    if |ls| > 1 {
      SingleSpacedLines(ls[1..]);
      SingleSpacedJoin(ls[0], Join("\n", ls[1..]));
      assert forall i :: 1 <= i < |ls| ==> ls[i] == ls[1..][i - 1];
    }
  }

  lemma {:induction false} SingleSpacedField(f: Field)
    requires f.name != "" && '\n' !in f.name
    ensures var line := f.name + ": " + f.value; line[0] != '\n' && (SingleSpaced(line) <==> SingleSpaced(f.value))
  {
    var head := f.name + ": ";
    var line, n := head + f.value, |head|;
    assert forall i :: 0 <= i < n ==> line[i] == head[i] != '\n';
    assert forall i :: 0 <= i < |f.value| ==> line[n + i] == f.value[i];
    if SingleSpaced(line) {
      forall i | 0 <= i < |f.value| - 1 ensures !(f.value[i] == '\n' && f.value[i + 1] == '\n') {
        assert !(line[n + i] == '\n' && line[n + i + 1] == '\n');
      }
    }
  }

  /**
   * Ingestion recovers the exact body offset if and only if no header value holds a blank line or ends in a
   * newline.
   */
  lemma {:induction false} BodyOffsetRecovered(h: Headers, body: string)
    ensures var (full, bodyStart) := NormalizedEmail(h, body);
            RecoveredBodyStart(full) == bodyStart <==> forall f <- Fields(h) :: SingleSpaced(f.value)
  {
    var fs := Fields(h);
    var ls := Lines(fs);
    var header := Join("\n", ls);
    forall i | 0 <= i < |fs|
      ensures ls[i] != "" && ls[i][0] != '\n' && (SingleSpaced(ls[i]) <==> SingleSpaced(fs[i].value))
    {
      FieldNames(h, i);
      SingleSpacedField(fs[i]);
    }
    SingleSpacedLines(ls);
    HeaderEndFound(header, body);
    FoundInRange(header + "\n\n" + body, 0);
  }

  lemma {:induction false} FieldNames(h: Headers, i: nat)
    requires i < |Fields(h)|
    ensures Fields(h)[i].name != "" && '\n' !in Fields(h)[i].name
  {
    var fs := Fields(h);
    assert fs[i].name in {"Subject", "From", "To", "Cc", "Date", "Message-ID", "Thread-ID"};
  }

  lemma {:induction false} HeaderEndFound(header: string, body: string)
    requires header != ""
    ensures FindBlankLine(header + "\n\n" + body, 0) == |header| <==> SingleSpaced(header)
  {
    var full, n := header + "\n\n" + body, |header|;
    FindsFirst(full, 0, n);
    assert forall i :: 0 <= i < n ==> full[i] == header[i];
    if forall i :: 0 <= i < n ==> !(full[i] == '\n' && full[i + 1] == '\n') {
      assert full[n - 1 + 1] == '\n';
      assert full[n - 1] != '\n';
      forall i | 0 <= i < n - 1 ensures !(header[i] == '\n' && header[i + 1] == '\n') {
        assert !(full[i] == '\n' && full[i + 1] == '\n');
      }
    }
  }

  // ----- which blocks are chunked ------------------------------------------

  /** The first `n` blocks, without those that end after the visible end; one that straddles it is dropped whole. */
  function VisibleUpTo(blocks: seq<TextBlock>, n: nat, visibleEnd: nat): seq<TextBlock>
    requires n <= |blocks|
  {
    if n == 0 then []
    else if blocks[n - 1].charEnd <= visibleEnd then VisibleUpTo(blocks, n - 1, visibleEnd) + [blocks[n - 1]]
    else VisibleUpTo(blocks, n - 1, visibleEnd)
  }

  function VisibleBlocks(blocks: seq<TextBlock>, visibleEnd: nat): seq<TextBlock> {
    VisibleUpTo(blocks, |blocks|, visibleEnd)
  }

  /** The end of the visible part, as ingestion computes it from the stored text. */
  function VisibleEnd(full: string, heads: string -> bool): nat {
    var headerEnd := RecoveredBodyStart(full);
    headerEnd + BoundaryFrom(full[headerEnd..], 0, heads)
  }

  function GmailChunks(full: string, heads: string -> bool, target: int, overlapRatio: real): ChunkResult {
    match PlainTextResult(full, false)
    case Parsed(_, blocks) => ChunkingOf(VisibleBlocks(blocks, VisibleEnd(full, heads)), target, overlapRatio)
    case _ => Chunks([])
  }

  /** Every block of a chunked run spans as many characters as its text has, and ends at or before `end`. */
  predicate EndsBy(bs: seq<TextBlock>, end: nat) {
    forall i :: 0 <= i < |bs| ==> bs[i].charEnd == bs[i].charStart + |bs[i].text| && bs[i].charEnd <= end
  }

  lemma {:induction false} TilesEndBy(bs: seq<TextBlock>, doc: string, hi: nat)
    requires Tiles(bs, doc, 0, 0, hi)
    ensures EndsBy(bs, |doc|)
    decreases |bs|
  {
    if bs != [] {
      TilesEndBy(bs[..|bs| - 1], doc, bs[|bs| - 1].charStart);
    }
  }

  lemma {:induction false} VisibleKeepsEnd(bs: seq<TextBlock>, n: nat, total: nat, end: nat)
    requires n <= |bs| && EndsBy(bs, total)
    ensures EndsBy(VisibleUpTo(bs, n, end), end)
  {
    if n > 0 {
      VisibleKeepsEnd(bs, n - 1, total, end);
    }
  }

  lemma {:induction false} SplitEndsBy(b: TextBlock, pos: nat, target: nat, parts: seq<TextBlock>, end: nat)
    requires pos <= |b.text| && target > 0 && EndsBy(parts, end) && EndsBy([b], end)
    ensures EndsBy(SplitFrom(b, pos, target, parts), end)
    decreases |b.text| - pos
  {
    if pos < |b.text| {
      var cut := CutEnd(b.text, pos, target);
      assert [b][0] == b;
      SplitEndsBy(b, SkipSpaces(b.text, cut), target, KeepPart(b, pos, cut, parts), end);
    }
  }

  lemma {:induction false} NormalizedEndsBy(bs: seq<TextBlock>, n: nat, target: nat, end: nat)
    requires n <= |bs| && target > 0 && EndsBy(bs, end)
    ensures EndsBy(NormalizedUpTo(bs, n, target), end)
  {
    if n > 0 {
      NormalizedEndsBy(bs, n - 1, target, end);
      assert EndsBy([bs[n - 1]], end);
      SplitEndsBy(bs[n - 1], 0, target, [], end);
    }
  }

  lemma {:induction false} ChunksEndBy(bs: seq<TextBlock>, target: int, overlapRatio: real, end: nat, i: nat)
    requires EndsBy(bs, end) && target > 0 && 0.0 <= overlapRatio < 1.0
    requires i < |ChunkingOf(bs, target, overlapRatio).specs|
    ensures ChunkingOf(bs, target, overlapRatio).specs[i].charEnd <= end
  {
    var normalized, _, ws := ChunkingWindows(bs, target, overlapRatio);
    NormalizedEndsBy(bs, |bs|, target, end);
    SpecEnd(normalized, ws[i], i);
  }

  lemma {:induction false} SpecEnd(bs: seq<TextBlock>, w: Window, ordinal: nat)
    requires InBounds(bs, w)
    ensures SpecOf(bs, w, ordinal).charEnd == bs[w.hi - 1].charEnd
  {
  }

  /** No chunk of a stored message reaches past the visible end. */
  lemma {:induction false} GmailChunksStayVisible(
    full: string, heads: string -> bool, target: int, overlapRatio: real, i: nat)
    requires target > 0 && 0.0 <= overlapRatio < 1.0
    requires i < |GmailChunks(full, heads, target, overlapRatio).specs|
    ensures GmailChunks(full, heads, target, overlapRatio).specs[i].charEnd <= VisibleEnd(full, heads)
  {
    ParsedTextTiles(full, false);
    var blocks := PlainTextResult(full, false).blocks;
    TilesEndBy(blocks, full, |full|);
    VisibleKeepsEnd(blocks, |blocks|, |full|, VisibleEnd(full, heads));
    ChunksEndBy(VisibleBlocks(blocks, VisibleEnd(full, heads)), target, overlapRatio, VisibleEnd(full, heads), i);
  }

  // ----- the visible end is never past the body's own boundary -------------

  lemma {:induction false} FindsBy(s: string, pos: nat, n: nat)
    requires pos <= n && n + 2 <= |s| && s[n] == '\n' == s[n + 1]
    ensures pos <= FindBlankLine(s, pos) <= n
    decreases n - pos
  {
    if !(s[pos] == '\n' && s[pos + 1] == '\n') {
      FindsBy(s, pos + 1, n);
    }
  }

  lemma {:induction false} LineEndBy(s: string, pos: nat, n: nat)
    requires pos < n <= |s| && s[n - 1] == '\n'
    ensures LineEnd(s, pos) <= n
    decreases n - pos
  {
    if !(s[pos] == '\r' && pos + 1 < |s| && s[pos + 1] == '\n') && !IsLineBreak(s[pos]) && pos + 1 < |s| {
      LineEndBy(s, pos + 1, n);
    }
  }

  /** After a newline a line starts. */
  lemma {:induction false} LineStartsAfterNewline(s: string, from: nat, n: nat)
    requires from <= n <= |s| && (n == from || s[n - 1] == '\n')
    ensures IsLineStart(s, from, n)
    decreases |s| - from
  {
    if from < n {
      LineEndBy(s, from, n);
      LineStartsAfterNewline(s, LineEnd(s, from), n);
    }
  }

  /** Quoted history starts at a line before `n`. */
  ghost predicate QuotesBefore(s: string, from: nat, n: nat, heads: string -> bool) {
    exists pos :: from <= pos < n && pos < |s| && IsLineStart(s, from, pos) && StartsAt(s, pos, heads)
  }

  /** The search from an earlier line finds the boundary from a later one, or stops before that line. */
  lemma {:induction false} BoundaryFromEarlier(s: string, from: nat, n: nat, heads: string -> bool)
    requires from <= n <= |s| && IsLineStart(s, from, n)
    ensures BoundaryFrom(s, from, heads) <= BoundaryFrom(s, n, heads)
    ensures BoundaryFrom(s, from, heads) < n || BoundaryFrom(s, from, heads) == BoundaryFrom(s, n, heads)
    decreases |s| - from
  {
    if from < n && !StartsAt(s, from, heads) {
      LineStartsAfter(s, LineEnd(s, from), n);
      BoundaryFromEarlier(s, LineEnd(s, from), n, heads);
    }
  }

  lemma {:induction false} LineEndShift(s: string, k: nat, pos: nat)
    requires k + pos < |s|
    ensures LineEnd(s, k + pos) == k + LineEnd(s[k..], pos)
    decreases |s| - pos
  {
    var rest := s[k..];
    assert rest[pos] == s[k + pos];
    if !(s[k + pos] == '\r' && k + pos + 1 < |s| && s[k + pos + 1] == '\n') && !IsLineBreak(s[k + pos]) && k + pos + 1 < |s| {
      LineEndShift(s, k, pos + 1);
    }
  }

  lemma {:induction false} LineShift(s: string, k: nat, pos: nat)
    requires k + pos < |s|
    ensures LineEnd(s, k + pos) == k + LineEnd(s[k..], pos) && LineAt(s, k + pos) == LineAt(s[k..], pos)
  {
    LineEndShift(s, k, pos);
    assert s[k..][pos..LineEnd(s[k..], pos)] == s[k + pos..k + LineEnd(s[k..], pos)];
  }

  lemma {:induction false} StartsShift(s: string, k: nat, pos: nat, heads: string -> bool)
    requires k + pos < |s|
    ensures StartsAt(s, k + pos, heads) <==> StartsAt(s[k..], pos, heads)
  {
    LineShift(s, k, pos);
    var next := LineEnd(s[k..], pos);
    if k + next < |s| {
      LineShift(s, k, next);
    }
  }

  /** The first line from `pos` on that starts where `p` holds. */
  function FirstLineWhere(s: string, pos: nat, p: nat -> bool): (at: nat)
    requires pos <= |s|
    decreases |s| - pos
  {
    if pos == |s| || p(pos) then pos else FirstLineWhere(s, LineEnd(s, pos), p)
  }

  lemma {:induction false} FirstLineShift(s: string, k: nat, pos: nat, p: nat -> bool, q: nat -> bool)
    requires k + pos <= |s| && forall i: nat :: k + i < |s| ==> (p(k + i) <==> q(i))
    ensures FirstLineWhere(s, k + pos, p) == k + FirstLineWhere(s[k..], pos, q)
    decreases |s| - pos
  {
    if k + pos < |s| && !q(pos) {
      LineEndShift(s, k, pos);
      FirstLineShift(s, k, LineEnd(s[k..], pos), p, q);
    }
  }

  function Starts(s: string, heads: string -> bool): nat -> bool {
    (i: nat) => i < |s| && StartsAt(s, i, heads)
  }

  lemma {:induction false} BoundaryIsFirstLine(s: string, pos: nat, heads: string -> bool)
    requires pos <= |s|
    ensures BoundaryFrom(s, pos, heads) == FirstLineWhere(s, pos, Starts(s, heads))
    decreases |s| - pos
  {
    if pos < |s| && !StartsAt(s, pos, heads) {
      BoundaryIsFirstLine(s, LineEnd(s, pos), heads);
    }
  }

  lemma {:induction false} StartsAgree(s: string, k: nat, i: nat, heads: string -> bool)
    requires k + i < |s|
    ensures Starts(s, heads)(k + i) <==> Starts(s[k..], heads)(i)
  {
    StartsShift(s, k, i, heads);
  }

  lemma {:induction false} SearchShift(s: string, k: nat, heads: string -> bool)
    requires k <= |s|
    ensures FirstLineWhere(s, k, Starts(s, heads)) == k + FirstLineWhere(s[k..], 0, Starts(s[k..], heads))
  {
    var p, q := Starts(s, heads), Starts(s[k..], heads);
    forall i: nat | k + i < |s| ensures p(k + i) <==> q(i) {
      StartsAgree(s, k, i, heads);
    }
    FirstLineShift(s, k, 0, p, q);
  }

  lemma {:induction false} BoundaryShift(s: string, k: nat, heads: string -> bool)
    requires k <= |s|
    ensures BoundaryFrom(s, k, heads) == k + BoundaryFrom(s[k..], 0, heads)
  {
    BoundaryIsFirstLine(s, k, heads);
    BoundaryIsFirstLine(s[k..], 0, heads);
    SearchShift(s, k, heads);
  }

  /** The search starts at or before the body, and the body starts at a line start of what is searched. */
  lemma {:induction false} BodyIsSearched(full: string, k: nat)
    requires 2 <= k <= |full| && full[k - 2] == '\n' == full[k - 1]
    ensures var r := RecoveredBodyStart(full); r <= k && IsLineStart(full[r..], 0, k - r)
  {
    FindsBy(full, 0, k - 2);
    var r := RecoveredBodyStart(full);
    assert r < k ==> full[r..][k - r - 1] == full[k - 1] == '\n';
    LineStartsAfterNewline(full[r..], 0, k - r);
  }

  lemma {:induction false} BoundaryAcross(s: string, k: nat, heads: string -> bool)
    requires k <= |s| && IsLineStart(s, 0, k)
    ensures var at, own := BoundaryFrom(s, 0, heads), k + BoundaryFrom(s[k..], 0, heads);
            at <= own && (at == own <==> !QuotesBefore(s, 0, k, heads))
  {
    BoundaryFromEarlier(s, 0, k, heads);
    BoundaryShift(s, k, heads);
    StopsBeforeExactlyWhen(s, k, heads);
  }

  /** The visible end against the boundary of a text that follows a blank line. */
  lemma {:induction false} VisibleEndBy(full: string, k: nat, heads: string -> bool)
    requires 2 <= k <= |full| && full[k - 2] == '\n' == full[k - 1]
    ensures var r, own := RecoveredBodyStart(full), k + BoundaryFrom(full[k..], 0, heads);
            && r <= k
            && VisibleEnd(full, heads) <= own
            && (VisibleEnd(full, heads) == own <==> !QuotesBefore(full[r..], 0, k - r, heads))
            && (r == k ==> VisibleEnd(full, heads) == own)
  {
    BodyIsSearched(full, k);
    var r := RecoveredBodyStart(full);
    BoundaryAcross(full[r..], k - r, heads);
    assert full[r..][k - r..] == full[k..];
  }

  /**
   * Whatever the header values hold, the visible end is never past the quote boundary of the body itself. It is that
   * boundary if and only if no line that ingestion searches before the body starts quoted history; it searches
   * none when no header value holds a blank line or ends in a newline.
   */
  lemma {:induction false} VisibleEndIsBoundary(h: Headers, body: string, heads: string -> bool)
    ensures var (full, bodyStart) := NormalizedEmail(h, body);
            var r, own := RecoveredBodyStart(full), bodyStart + BoundaryFrom(body, 0, heads);
            && VisibleEnd(full, heads) <= own
            && r <= bodyStart
            && (VisibleEnd(full, heads) == own <==> !QuotesBefore(full[r..], 0, bodyStart - r, heads))
            && ((forall f <- Fields(h) :: SingleSpaced(f.value)) ==> VisibleEnd(full, heads) == own)
  {
    BodyOffsetRecovered(h, body);
    var (full, bodyStart) := NormalizedEmail(h, body);
    VisibleEndBy(full, bodyStart, heads);
  }

  lemma {:induction false} StopsBeforeExactlyWhen(s: string, n: nat, heads: string -> bool)
    requires n <= |s|
    ensures BoundaryFrom(s, 0, heads) < n <==> QuotesBefore(s, 0, n, heads)
  {
    BoundaryIsFirst(s, 0, heads);
  }

  /** No chunk of a message reaches the quoted history of its body, for all headers, targets and overlaps. */
  lemma {:induction false} ChunksStayBeforeQuotes(
    h: Headers, body: string, heads: string -> bool, target: int, overlapRatio: real, i: nat)
    requires target > 0 && 0.0 <= overlapRatio < 1.0
    requires i < |GmailChunks(NormalizedEmail(h, body).0, heads, target, overlapRatio).specs|
    ensures var (full, bodyStart) := NormalizedEmail(h, body);
            GmailChunks(full, heads, target, overlapRatio).specs[i].charEnd <= bodyStart + BoundaryFrom(body, 0, heads)
  {
    VisibleEndIsBoundary(h, body, heads);
    GmailChunksStayVisible(NormalizedEmail(h, body).0, heads, target, overlapRatio, i);
  }

  // ----- what the chunks carry ---------------------------------------------

  /** Where the first block that is not visible starts; the end of the document when all are. */
  function CutAt(bs: seq<TextBlock>, visibleEnd: nat, size: nat): nat {
    var k := |VisibleBlocks(bs, visibleEnd)|;
    if k < |bs| then bs[k].charStart else size
  }

  lemma {:induction false} EndsInOrder(bs: seq<TextBlock>, doc: string, hi: nat, i: nat, j: nat)
    requires i < j < |bs| && Tiles(bs, doc, 0, 0, hi)
    ensures bs[i].charEnd <= bs[j].charEnd
  {
    TilesPrefix(bs, j, doc, 0, 0, hi);
    TilesPrefix(bs[..j], i, doc, 0, 0, bs[j].charStart);
  }

  /** The visible blocks are the first ones, up to the first that ends after the visible end. */
  lemma {:induction false} VisibleIsPrefix(bs: seq<TextBlock>, n: nat, doc: string, hi: nat, end: nat)
    requires n <= |bs| && Tiles(bs, doc, 0, 0, hi)
    ensures var k := |VisibleUpTo(bs, n, end)|;
            && k <= n && VisibleUpTo(bs, n, end) == bs[..k]
            && (forall i :: 0 <= i < k ==> bs[i].charEnd <= end)
            && (k < n ==> bs[k].charEnd > end)
  {
    if n > 0 {
      VisibleIsPrefix(bs, n - 1, doc, hi, end);
      var k := |VisibleUpTo(bs, n - 1, end)|;
      if k < n - 1 {
        EndsInOrder(bs, doc, hi, k, n - 1);
      }
    }
  }

  /**
   * The chunks of a message carry exactly the text before the first paragraph that ends after the visible end. So
   * they carry all visible text if and only if that paragraph has none: a reply with no blank line before the
   * quoted history loses its last paragraph whole.
   */
  lemma {:induction false} GmailChunksCarry(full: string, heads: string -> bool, target: int, overlapRatio: real)
    requires PlainTextResult(full, false).Parsed? && target > 0 && 0.0 <= overlapRatio < 1.0
    ensures var blocks, end := PlainTextResult(full, false).blocks, VisibleEnd(full, heads);
            var visible, cut := VisibleBlocks(blocks, end), CutAt(blocks, end, |full|);
            var bs := Normalized(visible, target);
            var carried := BlocksInk(NewBlocks(bs, Windows(bs, target, OverlapChars(target, overlapRatio))));
            && GmailChunks(full, heads, target, overlapRatio) == ChunkingOf(visible, target, overlapRatio)
            && cut <= |full| && end <= |full|
            && carried == Ink(full[..cut])
            && (carried == Ink(full[..end]) <==> cut >= end || Blank(full[cut..end]))
  {
    var blocks, end := PlainTextResult(full, false).blocks, VisibleEnd(full, heads);
    ParsedTextTiles(full, false);
    ChunkingLosesNoText(VisibleBlocks(blocks, end), target, overlapRatio);
    VisibleInk(blocks, full, end);
  }

  lemma {:induction false} VisibleInk(bs: seq<TextBlock>, doc: string, end: nat)
    requires Tiles(bs, doc, 0, 0, |doc|) && end <= |doc|
    ensures var cut := CutAt(bs, end, |doc|);
            && cut <= |doc|
            && BlocksInk(VisibleBlocks(bs, end)) == Ink(doc[..cut])
            && (Ink(doc[..cut]) == Ink(doc[..end]) <==> cut >= end || Blank(doc[cut..end]))
  {
    var k, cut := |VisibleBlocks(bs, end)|, CutAt(bs, end, |doc|);
    VisibleIsPrefix(bs, |bs|, doc, |doc|, end);
    if k < |bs| {
      TilesPrefix(bs, k, doc, 0, 0, |doc|);
    } else {
      assert bs[..k] == bs;
    }
    TilesInk(bs[..k], doc, 0, 0, cut);
    assert doc[0..cut] == doc[..cut] && doc[0..end] == doc[..end];
    if cut < end {
      InkCut(doc, 0, cut, end);
      InkBlank(doc[cut..end]);
    } else {
      BlankBeforeCut(bs[..k], doc, end, cut);
    }
  }

  /** Between the last visible block and the cut there is only whitespace. */
  lemma {:induction false} BlankBeforeCut(visible: seq<TextBlock>, doc: string, end: nat, cut: nat)
    requires Tiles(visible, doc, 0, 0, cut) && end <= cut
    requires visible != [] ==> visible[|visible| - 1].charEnd <= end
    ensures Ink(doc[0..cut]) == Ink(doc[0..end])
  {
    var last := if visible == [] then 0 else visible[|visible| - 1].charEnd;
    InkCut(doc, 0, end, cut);
    InkCut(doc, last, end, cut);
    InkBlank(doc[last..cut]);
  }

  // ----- what the definitions amount to ------------------------------------

  /** A line is quoted exactly when its first non-blank character is `>`. */
  lemma {:induction false} QuotedExactlyWhen(line: string)
    ensures IsQuoted(line) <==> exists k :: 0 <= k < |line| && line[k] == '>' && Blank(line[..k])
  {
    LStripSplits(line);
    var n := |line| - |LStrip(line)|;
    if IsQuoted(line) {
      assert line[n] == LStrip(line)[0] == '>';
    }
    forall k | 0 <= k < |line| && line[k] == '>' && Blank(line[..k]) ensures IsQuoted(line) {
      LStripAt(line, k);
    }
  }

  /**
   * A body is kept whole exactly when no line of it is a reply header or a signature, and no two consecutive lines
   * are quoted: a single quoted line is no quoted history.
   */
  lemma {:induction false} KeptWholeExactlyWhen(body: string, heads: string -> bool)
    ensures BoundaryFrom(body, 0, heads) == |body|
            <==> forall pos :: 0 <= pos < |body| && IsLineStart(body, 0, pos) ==>
                   && !IsMarker(LineAt(body, pos), heads)
                   && !(IsQuoted(LineAt(body, pos)) && LineEnd(body, pos) < |body| && IsQuoted(LineAt(body, LineEnd(body, pos))))
  {
    BoundaryIsFirst(body, 0, heads);
    forall pos | 0 <= pos < |body| && IsLineStart(body, 0, pos) && LineEnd(body, pos) < |body|
      ensures IsLineStart(body, 0, LineEnd(body, pos))
    {
      NextLineStarts(body, 0, pos);
    }
  }

  lemma {:induction false} NextLineStarts(body: string, from: nat, pos: nat)
    requires pos < |body| && IsLineStart(body, from, pos)
    ensures IsLineStart(body, from, LineEnd(body, pos))
    decreases |body| - from
  {
    if from != pos {
      NextLineStarts(body, LineEnd(body, from), pos);
    } else {
      assert IsLineStart(body, LineEnd(body, from), LineEnd(body, pos));
    }
  }

  /** Every stored message states subject, sender, date and both ids, and the other recipients when it has any. */
  lemma {:induction false} HeadersAreStated(h: Headers)
    ensures var fs := Fields(h);
            && |fs| >= 5
            && fs[0] == Field("Subject", if h.subject.None? || h.subject.value == "" then "(no subject)" else h.subject.value)
            && fs[1] == Field("From", if h.from.None? || h.from.value == "" then "(unknown sender)" else h.from.value)
            && fs[|fs| - 3] == Field("Date", if h.date.None? || h.date.value == "" then "(unknown date)" else h.date.value)
            && fs[|fs| - 2] == Field("Message-ID", h.messageId) && fs[|fs| - 1] == Field("Thread-ID", h.threadId)
            && (h.to.Some? && h.to.value != "" ==> fs[2] == Field("To", h.to.value))
            && (h.cc.Some? && h.cc.value != "" ==> fs[|fs| - 4] == Field("Cc", h.cc.value))
            && |fs| == 5 + (if h.to.Some? && h.to.value != "" then 1 else 0) + (if h.cc.Some? && h.cc.value != "" then 1 else 0)
  {
  }
}
