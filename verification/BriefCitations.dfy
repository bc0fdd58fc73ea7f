/** The Markdown markers that link a claim to its evidence, and the addresses that they open. */
module BriefCitations {
  import opened Text

  /** What an evidence link says about the source; a copy is stored for each citing claim. */
  datatype Span = Span(content: string, chunk: Option<string>, start: int, end: int, quote: string, location: Option<string>)

  datatype Artifact = Artifact(id: string, externalUrl: Option<string>)

  function ViewUrl(id: string, link: Span): string {
    "evidence?artifact_id=" + (id + ['&'] + ("char_start=" + (Decimal(link.start) + ['&'] + ("char_end=" + Decimal(link.end)))))
  }

  function SourceMarker(artifact: Artifact): string {
    if artifact.externalUrl.None? || artifact.externalUrl.value == "" then ""
    else (" [source](" + artifact.externalUrl.value + ")")
  }

  /** `artifacts` holds the artifact of each stored content. */
  function Marker(artifacts: map<string, Artifact>, link: Span, number: nat): string {
    var tag := "[" + Numeral(number) + "]";
    if link.content !in artifacts then tag
    else
      var artifact := artifacts[link.content];
      tag + "(" + ViewUrl(artifact.id, link) + ")" + SourceMarker(artifact)
  }

  function MarkersUpTo(artifacts: map<string, Artifact>, links: seq<Span>, n: nat): seq<string>
    requires n <= |links|
  {
    if n == 0 then [] else MarkersUpTo(artifacts, links, n - 1) + [Marker(artifacts, links[n - 1], n)]
  }

  function CitationOf(artifacts: map<string, Artifact>, links: seq<Span>): string {
    if links == [] then "" else " " + Join(" ", MarkersUpTo(artifacts, links, |links|))
  }

  /** One marker per link, in order and numbered from 1, each with the address of its own span. */
  lemma {:induction false} MarkersAreNumbered(artifacts: map<string, Artifact>, links: seq<Span>, n: nat, i: nat)
    requires i < n <= |links|
    ensures |MarkersUpTo(artifacts, links, n)| == n
    ensures var marker := MarkersUpTo(artifacts, links, n)[i];
            var tag := "[" + Numeral(i + 1) + "]";
            && (links[i].content !in artifacts ==> marker == tag)
            && (links[i].content in artifacts ==>
                  var artifact := artifacts[links[i].content];
                  var unsourced := artifact.externalUrl.None? || artifact.externalUrl.value == "";
                  marker == tag + "(" + ViewUrl(artifact.id, links[i]) + ")"
                            + if unsourced then "" else " [source](" + artifact.externalUrl.value + ")")
  {
    MarkerCount(artifacts, links, n - 1);
    if i < n - 1 {
      MarkersAreNumbered(artifacts, links, n - 1, i);
    }
  }

  lemma {:induction false} MarkerCount(artifacts: map<string, Artifact>, links: seq<Span>, n: nat)
    requires n <= |links|
    ensures |MarkersUpTo(artifacts, links, n)| == n
  {
    if n > 0 {
      MarkerCount(artifacts, links, n - 1);
    }
  }

  method CitationMarkdown(artifacts: map<string, Artifact>, links: seq<Span>) returns (citation: string)
    ensures citation == CitationOf(artifacts, links)
  {
    if links == [] {
      return "";
    }
    var markers := [];
    for i := 0 to |links|
      invariant markers == MarkersUpTo(artifacts, links, i)
    {
      var link := links[i];
      var marker := "[" + Numeral(i + 1) + "]";
      if link.content in artifacts {
        var artifact := artifacts[link.content];
        marker := marker + "(" + ViewUrl(artifact.id, link) + ")";
        if artifact.externalUrl.Some? && artifact.externalUrl.value != "" {
          marker := marker + (" [source](" + artifact.externalUrl.value + ")");
        } else {
          assert marker + "" == marker;
        }
      }
      markers := markers + [marker];
    }
    citation := " " + Join(" ", markers);
  }

  lemma {:induction false} SamePrefix(p: string, a: string, b: string)
    requires p + a == p + b
    ensures a == b
  {
    assert (p + a)[|p|..] == a && (p + b)[|p|..] == b;
  }

  lemma {:induction false} DecimalIdentifies(m: int, n: int)
    ensures Decimal(m) == Decimal(n) ==> m == n
    ensures '&' !in Decimal(m)
  {
    DecimalParses(m);
    DecimalParses(n);
  }

  /**
   * Every citation opens the evidence viewer at its own span: over artifact ids without an ampersand, two links have
   * the same address if and only if they name the same artifact and the same characters of it.
   */
  lemma {:induction false} ViewUrlIdentifies(i: string, a: Span, j: string, b: Span)
    requires '&' !in i && '&' !in j
    ensures ViewUrl(i, a) == ViewUrl(j, b) <==> i == j && a.start == b.start && a.end == b.end
  {
    DecimalIdentifies(a.start, b.start);
    DecimalIdentifies(b.start, a.start);
    DecimalIdentifies(a.end, b.end);
    if ViewUrl(i, a) == ViewUrl(j, b) {
      var x, y := "char_end=" + Decimal(a.end), "char_end=" + Decimal(b.end);
      var s, t := Decimal(a.start) + ['&'] + x, Decimal(b.start) + ['&'] + y;
      SamePrefix("evidence?artifact_id=", i + ['&'] + ("char_start=" + s), j + ['&'] + ("char_start=" + t));
      FirstSplits(i, '&', "char_start=" + s);
      FirstSplits(j, '&', "char_start=" + t);
      SamePrefix("char_start=", s, t);
      FirstSplits(Decimal(a.start), '&', x);
      FirstSplits(Decimal(b.start), '&', y);
      SamePrefix("char_end=", Decimal(a.end), Decimal(b.end));
    }
  }

  /** Read back part by part, the address names the artifact and where the span starts and ends. */
  lemma {:induction false} ViewUrlReadsBack(id: string, link: Span)
    requires '&' !in id
    ensures var url := ViewUrl(id, link);
            var rest := After(url, '&');
            && Before(url, '&') == "evidence?artifact_id=" + id
            && Before(rest, '&') == "char_start=" + Decimal(link.start) && After(rest, '&') == "char_end=" + Decimal(link.end)
  {
    var end := "char_end=" + Decimal(link.end);
    var start := "char_start=" + Decimal(link.start);
    var head := "evidence?artifact_id=" + id;
    NamesAreClean(id, link.start);
    FirstSplits(start, '&', end);
    FirstSplits(head, '&', start + ['&'] + end);
    UrlParts(id, link);
  }

  lemma {:induction false} UrlParts(id: string, link: Span)
    ensures ViewUrl(id, link)
            == "evidence?artifact_id=" + id + ['&'] + ("char_start=" + Decimal(link.start) + ['&'] + ("char_end=" + Decimal(link.end)))
  {
    var s, e := Decimal(link.start), "char_end=" + Decimal(link.end);
    assert "char_start=" + (s + ['&'] + e) == "char_start=" + s + ['&'] + e;
    Associate("evidence?artifact_id=", id, ['&'], "char_start=" + s + ['&'] + e);
  }

  lemma {:induction false} Associate(a: string, b: string, c: string, d: string)
    ensures a + (b + c + d) == a + b + c + d
  {
  }

  lemma {:induction false} NamesAreClean(id: string, start: int)
    requires '&' !in id
    ensures '&' !in "evidence?artifact_id=" + id && '&' !in "char_start=" + Decimal(start)
  {
    DecimalIdentifies(start, start);
    NotInConcat("evidence?artifact_id=", id, '&');
    NotInConcat("char_start=", Decimal(start), '&');
  }

  lemma {:induction false} NotInConcat(a: string, b: string, c: char)
    ensures c in a + b <==> c in a || c in b
  {
  }
}
