/** The fingerprint of an observation, and the table it keeps free of duplicates. */
module Fingerprint {
  import opened Text
  import opened Normalization
  import opened Chunking
  import opened Selections

  datatype Span = Span(chunk: string, start: int, end: int)

  /** What the fingerprint identifies; `folded` is the statement after Unicode folding. */
  datatype Proposition = Proposition(content: string, kind: string, folded: string, spans: seq<Span>)

  // ----- sorting the spans -------------------------------------------------

  /** Python's string order. */
  predicate StringLe(a: string, b: string) {
    a == "" || (b != "" && (a[0] < b[0] || (a[0] == b[0] && StringLe(a[1..], b[1..]))))
  }

  /** Python's tuple order on spans. */
  predicate SpanLe(a: Span, b: Span) {
    if a.chunk != b.chunk then StringLe(a.chunk, b.chunk)
    else a.start < b.start || (a.start == b.start && a.end <= b.end)
  }

  lemma {:induction false} StringOrder(a: string, b: string, c: string)
    ensures StringLe(a, b) || StringLe(b, a)
    ensures StringLe(a, b) && StringLe(b, a) ==> a == b
    ensures StringLe(a, b) && StringLe(b, c) ==> StringLe(a, c)
  {
    if a != "" && b != "" {
      StringOrder(a[1..], b[1..], if c == "" then "" else c[1..]);
      assert a == [a[0]] + a[1..] && b == [b[0]] + b[1..];
    }
  }

  lemma {:induction false} SpanOrder(a: Span, b: Span, c: Span)
    ensures SpanLe(a, b) || SpanLe(b, a)
    ensures SpanLe(a, b) && SpanLe(b, a) ==> a == b
    ensures SpanLe(a, b) && SpanLe(b, c) ==> SpanLe(a, c)
  {
    StringOrder(a.chunk, b.chunk, c.chunk);
    StringOrder(b.chunk, a.chunk, c.chunk);
  }

  function InsertSpan(x: Span, sorted: seq<Span>): seq<Span> {
    if sorted == [] || SpanLe(x, sorted[0]) then [x] + sorted else [sorted[0]] + InsertSpan(x, sorted[1..])
  }

  function Sort(spans: seq<Span>): seq<Span> {
    if spans == [] then [] else InsertSpan(spans[0], Sort(spans[1..]))
  }

  predicate IsSorted(s: seq<Span>) {
    forall i :: 0 < i < |s| ==> SpanLe(s[i - 1], s[i])
  }

  lemma {:induction false} InsertSorts(x: Span, s: seq<Span>)
    requires IsSorted(s)
    ensures IsSorted(InsertSpan(x, s)) && multiset(InsertSpan(x, s)) == multiset{x} + multiset(s)
    ensures InsertSpan(x, s) != [] && (InsertSpan(x, s)[0] == x || (s != [] && InsertSpan(x, s)[0] == s[0]))
  {
    if !(s == [] || SpanLe(x, s[0])) {
      SpanOrder(x, s[0], x);
      InsertSorts(x, s[1..]);
      assert s == [s[0]] + s[1..];
      var rest := InsertSpan(x, s[1..]);
      assert forall i :: 0 < i < |rest| + 1 ==> ([s[0]] + rest)[i] == rest[i - 1];
    }
  }

  lemma {:induction false} SortSorts(s: seq<Span>)
    ensures IsSorted(Sort(s)) && multiset(Sort(s)) == multiset(s)
  {
    if s != [] {
      SortSorts(s[1..]);
      InsertSorts(s[0], Sort(s[1..]));
      assert s == [s[0]] + s[1..];
    }
  }

  lemma {:induction false} FirstIsLeast(s: seq<Span>, i: nat)
    requires IsSorted(s) && i < |s|
    ensures SpanLe(s[0], s[i])
  {
    if i == 0 {
      SpanOrder(s[0], s[0], s[0]);
    } else {
      FirstIsLeast(s, i - 1);
      SpanOrder(s[0], s[i - 1], s[i]);
    }
  }

  lemma {:induction false} LeastInBoth(s: seq<Span>, t: seq<Span>)
    requires IsSorted(s) && s != [] && t != [] && multiset(s) == multiset(t)
    ensures SpanLe(s[0], t[0])
  {
    assert t[0] in multiset(s);
    var i :| 0 <= i < |s| && s[i] == t[0];
    FirstIsLeast(s, i);
  }

  lemma {:induction false} SortedUnique(s: seq<Span>, t: seq<Span>)
    requires IsSorted(s) && IsSorted(t) && multiset(s) == multiset(t)
    ensures s == t
  {
    SameLength(s, t);
    if s != [] {
      LeastInBoth(s, t);
      LeastInBoth(t, s);
      SpanOrder(s[0], t[0], s[0]);
      RestsAlike(s, t);
      SortedUnique(s[1..], t[1..]);
      assert s == [s[0]] + s[1..] && t == [t[0]] + t[1..];
    }
  }

  // ----- the pre-hash string -----------------------------------------------

  function SpanText(s: Span): string {
    s.chunk + ":" + Decimal(s.start) + ":" + Decimal(s.end)
  }

  function SpanTexts(spans: seq<Span>): (ts: seq<string>)
    ensures |ts| == |spans| && forall i :: 0 <= i < |ts| ==> ts[i] == SpanText(spans[i])
  {
    seq(|spans|, i requires 0 <= i < |spans| => SpanText(spans[i]))
  }

  function RawKey(p: Proposition): string {
    p.content + "|" + p.kind + "|" + Normalize(p.folded) + "|" + Join(",", SpanTexts(Sort(p.spans)))
  }

  function ComputeFingerprint(p: Proposition): Digest {
    Sha256(RawKey(p))
  }

  // ----- reading the string back -------------------------------------------

  /** The part of `s` before the last `c`, and the part after it. */
  function BeforeLast(s: string, c: char): string {
    if s == "" then "" else if s[|s| - 1] == c then s[..|s| - 1] else BeforeLast(s[..|s| - 1], c)
  }

  function AfterLast(s: string, c: char): string {
    if s == "" || s[|s| - 1] == c then "" else AfterLast(s[..|s| - 1], c) + [s[|s| - 1]]
  }

  function SplitAll(s: string, c: char): seq<string>
    decreases |s|
  {
    if c !in s then [s]
    else
      AfterIsShorter(s, c);
      [Before(s, c)] + SplitAll(After(s, c), c)
  }

  function ParseSpan(s: string): Span {
    var numbers := After(s, ':');
    Span(Before(s, ':'), ParseDecimal(Before(numbers, ':')), ParseDecimal(After(numbers, ':')))
  }

  function ParseSpans(s: string): seq<Span> {
    if s == "" then []
    else
      var parts := SplitAll(s, ',');
      seq(|parts|, i requires 0 <= i < |parts| => ParseSpan(parts[i]))
  }

  /** What a pre-hash string says: content id, kind, normalized statement, sorted spans. */
  datatype Reading = Reading(content: string, kind: string, statement: string, spans: seq<Span>)

  function Decode(raw: string): Reading {
    var afterContent := After(raw, '|');
    var rest := After(afterContent, '|');
    Reading(Before(raw, '|'), Before(afterContent, '|'), BeforeLast(rest, '|'), ParseSpans(AfterLast(rest, '|')))
  }

  lemma {:induction false} LastSplits(a: string, c: char, b: string)
    requires c !in b
    ensures BeforeLast(a + [c] + b, c) == a && AfterLast(a + [c] + b, c) == b
  {
    var s := a + [c] + b;
    if b == "" {
      assert s[..|s| - 1] == a;
    } else {
      var n := |b| - 1;
      LastSplits(a, c, b[..n]);
      assert s[..|s| - 1] == a + [c] + b[..n];
      assert b[n] in b && b == b[..n] + [b[n]];
    }
  }

  predicate CleanId(s: string) {
    forall c <- s :: c !in "|:,"
  }

  lemma {:induction false} SpanParses(s: Span)
    requires CleanId(s.chunk)
    ensures ParseSpan(SpanText(s)) == s
    ensures SpanText(s) != "" && ',' !in SpanText(s) && '|' !in SpanText(s)
  {
    var a, b := Decimal(s.start), Decimal(s.end);
    DecimalParses(s.start);
    DecimalParses(s.end);
    FirstSplits(s.chunk, ':', a + [':'] + b);
    FirstSplits(a, ':', b);
    assert SpanText(s) == s.chunk + [':'] + (a + [':'] + b);
    var parsed := ParseSpan(SpanText(s));
    assert parsed.chunk == s.chunk && parsed.start == s.start && parsed.end == s.end;
  }

  lemma {:induction false} JoinSplits(parts: seq<string>, c: char)
    requires parts != [] && forall i :: 0 <= i < |parts| ==> c !in parts[i]
    ensures SplitAll(Join([c], parts), c) == parts
  {
    if |parts| > 1 {
      JoinSplits(parts[1..], c);
      FirstSplits(parts[0], c, Join([c], parts[1..]));
      assert (parts[0] + [c] + Join([c], parts[1..]))[|parts[0]|] == c;
      assert parts == [parts[0]] + parts[1..];
    }
  }

  lemma {:induction false} JoinAvoids(parts: seq<string>, sep: string, c: char)
    requires c !in sep && forall i :: 0 <= i < |parts| ==> c !in parts[i]
    ensures c !in Join(sep, parts)
  {
    if |parts| > 1 {
      JoinAvoids(parts[1..], sep, c);
    }
  }

  lemma {:induction false} SpansParse(spans: seq<Span>)
    requires forall i :: 0 <= i < |spans| ==> CleanId(spans[i].chunk)
    ensures ParseSpans(Join(",", SpanTexts(spans))) == spans && '|' !in Join(",", SpanTexts(spans))
  {
    var ts := SpanTexts(spans);
    forall i | 0 <= i < |spans| ensures ParseSpan(ts[i]) == spans[i] && ts[i] != "" && ',' !in ts[i] && '|' !in ts[i] {
      SpanParses(spans[i]);
    }
    JoinAvoids(ts, ",", '|');
    if spans != [] {
      JoinSplits(ts, ',');
      JoinStarts(",", ts);
    }
  }

  predicate CleanIds(p: Proposition) {
    CleanId(p.content) && CleanId(p.kind) && forall s <- p.spans :: CleanId(s.chunk)
  }

  lemma {:induction false} SortKeepsClean(p: Proposition, i: nat)
    requires CleanIds(p) && i < |Sort(p.spans)|
    ensures CleanId(Sort(p.spans)[i].chunk)
  {
    SortSorts(p.spans);
    assert Sort(p.spans)[i] in multiset(p.spans);
  }

  /** The pre-hash string can be read back, even though the statement may contain the separator `|`. */
  lemma {:induction false} KeyDecodes(p: Proposition)
    requires CleanIds(p)
    ensures Decode(RawKey(p)) == Reading(p.content, p.kind, Normalize(p.folded), Sort(p.spans))
  {
    var spans := Sort(p.spans);
    forall i | 0 <= i < |spans| ensures CleanId(spans[i].chunk) {
      SortKeepsClean(p, i);
    }
    SpansParse(spans);
    PartsDecode(p.content, p.kind, Normalize(p.folded), Join(",", SpanTexts(spans)));
  }

  lemma {:induction false} PartsDecode(content: string, kind: string, statement: string, key: string)
    requires '|' !in content && '|' !in kind && '|' !in key
    ensures Decode(content + "|" + kind + "|" + statement + "|" + key) == Reading(content, kind, statement, ParseSpans(key))
  {
    var rest := statement + ['|'] + key;
    var afterContent := kind + ['|'] + rest;
    LastSplits(statement, '|', key);
    FirstSplits(kind, '|', rest);
    FirstSplits(content, '|', afterContent);
    RegroupParts(content, kind, statement, key);
  }

  lemma {:induction false} RegroupParts(a: string, b: string, c: string, d: string)
    ensures a + "|" + b + "|" + c + "|" + d == a + ['|'] + (b + ['|'] + (c + ['|'] + d))
  {
  }

  /** The same words, of the same kind, from the same content, cited the same way. */
  predicate SameProposition(p: Proposition, q: Proposition) {
    && p.content == q.content && p.kind == q.kind && Words(p.folded) == Words(q.folded)
    && multiset(p.spans) == multiset(q.spans)
  }

  /** Two fingerprints are equal exactly for the same proposition; the order of the spans does not matter. */
  lemma {:induction false} FingerprintIdentifies(p: Proposition, q: Proposition)
    requires CleanIds(p) && CleanIds(q)
    ensures ComputeFingerprint(p) == ComputeFingerprint(q) <==> SameProposition(p, q)
  {
    KeyDecodes(p);
    KeyDecodes(q);
    NormalizedAlike(p.folded, q.folded);
    SortSorts(p.spans);
    SortSorts(q.spans);
    if SameProposition(p, q) {
      SortedUnique(Sort(p.spans), Sort(q.spans));
    }
  }

  /** Clean ids are needed: a kind that contains the separator can trade characters with the statement. */
  lemma {:induction false} SeparatorInKindCollides(content: string, spans: seq<Span>, a: string, b: string, c: string)
    requires IsNormalForm(c) && IsNormalForm(b + "|" + c)
    ensures var p := Proposition(content, a + "|" + b, c, spans);
            var q := Proposition(content, a, b + "|" + c, spans);
            ComputeFingerprint(p) == ComputeFingerprint(q) && !SameProposition(p, q)
  {
    NormalFormIsKept(c);
    NormalFormIsKept(b + "|" + c);
    TradedSeparator(content, a, b, c, Join(",", SpanTexts(Sort(spans))));
    assert |a + "|" + b| > |a|;
  }

  lemma {:induction false} TradedSeparator(content: string, a: string, b: string, c: string, key: string)
    ensures content + "|" + (a + "|" + b) + "|" + c + "|" + key == content + "|" + a + "|" + (b + "|" + c) + "|" + key
  {
  }

  // ----- the observations table --------------------------------------------

  datatype Row = Row(id: string, proposition: Proposition, fingerprint: Digest)

  /** The row with a fingerprint, if any. */
  function Lookup(rows: seq<Row>, fingerprint: Digest): Option<Row> {
    if rows == [] then None
    else if rows[|rows| - 1].fingerprint == fingerprint then Some(rows[|rows| - 1])
    else Lookup(rows[..|rows| - 1], fingerprint)
  }

  /** One insertion: a fresh row id and the proposition. */
  datatype Insertion = Insertion(id: string, proposition: Proposition)

  function RowFor(x: Insertion): Row {
    Row(x.id, x.proposition, ComputeFingerprint(x.proposition))
  }

  /** Checks by fingerprint, then inserts. */
  function Inserted(rows: seq<Row>, row: Row): seq<Row> {
    if Lookup(rows, row.fingerprint).Some? then rows else rows + [row]
  }

  class ObservationTable {
    var rows: seq<Row>

    constructor ()
      ensures rows == []
    {
      rows := [];
    }

    method InsertObservation(id: string, p: Proposition) returns (row: Row, created: bool)
      modifies this
      ensures rows == Inserted(old(rows), RowFor(Insertion(id, p)))
      ensures created <==> Lookup(old(rows), ComputeFingerprint(p)).None?
      ensures row in rows && row.fingerprint == ComputeFingerprint(p)
      ensures !created ==> rows == old(rows)
    {
      var fingerprint := ComputeFingerprint(p);
      LookupFinds(rows, fingerprint);
      var existing := Lookup(rows, fingerprint);
      if existing.Some? {
        return existing.value, false;
      }
      row := Row(id, p, fingerprint);
      rows := rows + [row];
      created := true;
    }
  }

  /** The table holds a row with this fingerprint. */
  predicate Holds(rows: seq<Row>, fingerprint: Digest) {
    exists i :: 0 <= i < |rows| && rows[i].fingerprint == fingerprint
  }

  lemma {:induction false} LookupFinds(rows: seq<Row>, fingerprint: Digest)
    ensures Lookup(rows, fingerprint).Some? <==> Holds(rows, fingerprint)
    ensures Lookup(rows, fingerprint).Some? ==>
              Lookup(rows, fingerprint).value in rows && Lookup(rows, fingerprint).value.fingerprint == fingerprint
  {
    if rows != [] {
      var init := rows[..|rows| - 1];
      LookupFinds(init, fingerprint);
      if i :| 0 <= i < |init| && init[i].fingerprint == fingerprint {
        assert rows[i].fingerprint == fingerprint;
      }
      if i :| 0 <= i < |rows| && rows[i].fingerprint == fingerprint {
        assert i < |init| ==> init[i].fingerprint == fingerprint;
      }
    }
  }

  /** The table after the first `n` insertions. */
  function InsertedUpTo(rows: seq<Row>, xs: seq<Row>, n: nat): seq<Row>
    requires n <= |xs|
  {
    if n == 0 then rows else Inserted(InsertedUpTo(rows, xs, n - 1), xs[n - 1])
  }

  function RowsFor(xs: seq<Insertion>): (rows: seq<Row>)
    ensures |rows| == |xs| && forall i :: 0 <= i < |xs| ==> rows[i] == RowFor(xs[i])
  {
    seq(|xs|, i requires 0 <= i < |xs| => RowFor(xs[i]))
  }

  /** The table after a sequence of insertions. */
  function InsertedAll(rows: seq<Row>, xs: seq<Insertion>): seq<Row> {
    InsertedUpTo(rows, RowsFor(xs), |xs|)
  }

  /** No two rows share a fingerprint. */
  predicate IsTable(rows: seq<Row>) {
    forall i, j :: 0 <= i < j < |rows| ==> rows[i].fingerprint != rows[j].fingerprint
  }

  lemma {:induction false} InsertedKeeps(rows: seq<Row>, row: Row)
    requires IsTable(rows)
    ensures IsTable(Inserted(rows, row)) && rows <= Inserted(rows, row) && Holds(Inserted(rows, row), row.fingerprint)
  {
    LookupFinds(rows, row.fingerprint);
    if Lookup(rows, row.fingerprint).None? {
      assert (rows + [row])[|rows|].fingerprint == row.fingerprint;
    }
  }

  lemma {:induction false} InsertedUpToKeeps(rows: seq<Row>, xs: seq<Row>, i: nat, n: nat)
    requires IsTable(rows) && i < n <= |xs|
    ensures IsTable(InsertedUpTo(rows, xs, n)) && Holds(InsertedUpTo(rows, xs, n), xs[i].fingerprint)
  {
    if n > 1 {
      InsertedUpToKeeps(rows, xs, if i < n - 1 then i else 0, n - 1);
    }
    var before := InsertedUpTo(rows, xs, n - 1);
    InsertedKeeps(before, xs[n - 1]);
    if i < n - 1 {
      HoldsGrows(before, Inserted(before, xs[n - 1]), xs[i].fingerprint);
    }
  }

  lemma {:induction false} HoldsGrows(before: seq<Row>, after: seq<Row>, fingerprint: Digest)
    requires before <= after && Holds(before, fingerprint)
    ensures Holds(after, fingerprint)
  {
    var i :| 0 <= i < |before| && before[i].fingerprint == fingerprint;
    assert after[i].fingerprint == fingerprint;
  }

  /** Every row was put there by one of the insertions. */
  predicate AllMeet(rows: seq<Row>, p: Row -> bool) {
    forall i :: 0 <= i < |rows| ==> p(rows[i])
  }

  lemma {:induction false} InsertedMeets(rows: seq<Row>, x: Row, p: Row -> bool)
    requires AllMeet(rows, p) && p(x)
    ensures AllMeet(Inserted(rows, x), p)
  {
  }

  /** The table holds nothing but what was inserted. */
  lemma {:induction false} InsertedUpToMeets(rows: seq<Row>, xs: seq<Row>, n: nat, p: Row -> bool)
    requires n <= |xs| && AllMeet(rows, p) && AllMeet(xs, p)
    ensures AllMeet(InsertedUpTo(rows, xs, n), p)
  {
    if n > 0 {
      InsertedUpToMeets(rows, xs, n - 1, p);
      InsertedMeets(InsertedUpTo(rows, xs, n - 1), xs[n - 1], p);
    }
  }

  /**
   * After any sequence of insertions into an empty table there is exactly one row per distinct proposition: each
   * inserted proposition has a row, and any two rows with the same proposition are one row.
   */
  lemma {:induction false} OneRowPerProposition(xs: seq<Insertion>, i: nat) returns (k: nat)
    requires i < |xs| && forall x <- xs :: CleanIds(x.proposition)
    ensures var rows := InsertedAll([], xs);
            && k < |rows|
            && forall j :: 0 <= j < |rows| ==> (SameProposition(rows[j].proposition, xs[i].proposition) <==> j == k)
  {
    var rows, p := InsertedAll([], xs), xs[i].proposition;
    var identifies := (r: Row) => SameProposition(r.proposition, p) <==> r.fingerprint == ComputeFingerprint(p);
    InsertedUpToKeeps([], RowsFor(xs), i, |xs|);
    k :| 0 <= k < |rows| && rows[k].fingerprint == ComputeFingerprint(p);
    forall j | 0 <= j < |xs| ensures identifies(RowsFor(xs)[j]) {
      RowIdentifies(xs, i, j);
    }
    InsertedUpToMeets([], RowsFor(xs), |xs|, identifies);
    forall j | 0 <= j < |rows| ensures SameProposition(rows[j].proposition, p) <==> j == k {
      assert identifies(rows[j]);
    }
  }

  lemma {:induction false} RowIdentifies(xs: seq<Insertion>, i: nat, j: nat)
    requires i < |xs| && j < |xs| && forall x <- xs :: CleanIds(x.proposition)
    ensures var r := RowFor(xs[j]);
            SameProposition(r.proposition, xs[i].proposition) <==> r.fingerprint == ComputeFingerprint(xs[i].proposition)
  {
    assert xs[i] in xs && xs[j] in xs;
    FingerprintIdentifies(RowFor(xs[j]).proposition, xs[i].proposition);
  }

  /** Replaying insertions that are already represented, in any order and number, changes nothing. */
  lemma {:induction false} ReplayChangesNothing(rows: seq<Row>, xs: seq<Insertion>)
    requires forall x <- xs :: Holds(rows, ComputeFingerprint(x.proposition))
    ensures InsertedAll(rows, xs) == rows
  {
    forall i | 0 <= i < |xs| ensures Holds(rows, RowsFor(xs)[i].fingerprint) {
      assert xs[i] in xs;
    }
    ReplayUpTo(rows, RowsFor(xs), |xs|);
  }

  lemma {:induction false} ReplayUpTo(rows: seq<Row>, xs: seq<Row>, n: nat)
    requires n <= |xs| && forall i :: 0 <= i < |xs| ==> Holds(rows, xs[i].fingerprint)
    ensures InsertedUpTo(rows, xs, n) == rows
  {
    if n > 0 {
      ReplayUpTo(rows, xs, n - 1);
      LookupFinds(rows, xs[n - 1].fingerprint);
    }
  }
}
