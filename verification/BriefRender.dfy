/** What a planned brief cites and what its Markdown shows. */
module BriefRender {
  import opened Text
  import opened BriefCitations
  import opened BriefPlan
  import opened Selections

  // ----- evidence links ----------------------------------------------------

  /** The evidence of the first `n` cited facts, one after the other; ids that name no fact are skipped. */
  function EvidenceOf(sections: seq<FactSection>, ids: seq<string>, n: nat): seq<string>
    requires n <= |ids|
  {
    if n == 0 then []
    else
      EvidenceOf(sections, ids, n - 1)
      + if Lookup(sections, ids[n - 1]).Some? then Lookup(sections, ids[n - 1]).value.evidence else []
  }

  predicate SeenBefore(links: seq<string>, n: nat, link: string)
    requires n <= |links|
  {
    exists i :: 0 <= i < n && links[i] == link
  }

  /** The existing links among the first `n`, each at its first occurrence only. */
  function FirstLinks(existing: map<string, Span>, links: seq<string>, n: nat): seq<string>
    requires n <= |links|
  {
    if n == 0 then []
    else if !SeenBefore(links, n - 1, links[n - 1]) && links[n - 1] in existing then
      FirstLinks(existing, links, n - 1) + [links[n - 1]]
    else FirstLinks(existing, links, n - 1)
  }

  /** The links a claim with these citations gets. */
  function CitedLinks(sections: seq<FactSection>, existing: map<string, Span>, ids: seq<string>): seq<string> {
    var links := EvidenceOf(sections, ids, |ids|);
    FirstLinks(existing, links, |links|)
  }

  predicate AreCopies(rows: seq<Span>, existing: map<string, Span>, links: seq<string>) {
    |rows| == |links| && forall i :: 0 <= i < |rows| ==> links[i] in existing && rows[i] == existing[links[i]]
  }

  /** Goes on with the links of one fact, after the links `done`. */
  method LinkFactEvidence(
    existing: map<string, Span>, fact: Fact, seen0: set<string>, rows0: seq<Span>, ghost done: seq<string>)
    returns (seen: set<string>, rows: seq<Span>)
    requires forall link :: link in seen0 <==> link in done
    requires AreCopies(rows0, existing, FirstLinks(existing, done, |done|))
    ensures forall link :: link in seen <==> link in done + fact.evidence
    ensures AreCopies(rows, existing, FirstLinks(existing, done + fact.evidence, |done + fact.evidence|))
  {
    seen, rows := seen0, rows0;
    ghost var all := done + fact.evidence;
    FirstLinksPrefix(existing, done, fact.evidence, |done|);
    for k := 0 to |fact.evidence|
      invariant forall link :: link in seen <==> SeenBefore(all, |done| + k, link)
      invariant AreCopies(rows, existing, FirstLinks(existing, all, |done| + k))
    {
      var link := fact.evidence[k];
      assert all[|done| + k] == link;
      if link !in seen {
        seen := seen + {link};
        if link in existing {
          rows := rows + [existing[link]];
        }
      }
    }
  }

  lemma {:induction false} FirstLinksPrefix(existing: map<string, Span>, a: seq<string>, b: seq<string>, n: nat)
    requires n <= |a|
    ensures FirstLinks(existing, a + b, n) == FirstLinks(existing, a, n)
    ensures forall link :: SeenBefore(a + b, n, link) <==> SeenBefore(a, n, link)
  {
    forall link ensures SeenBefore(a + b, n, link) <==> SeenBefore(a, n, link) {
      if i :| 0 <= i < n && a[i] == link {
        assert (a + b)[i] == link;
      }
    }
    if n > 0 {
      FirstLinksPrefix(existing, a, b, n - 1);
    }
  }

  /** Copies the evidence of a valid claim's facts to the claim. */
  method LinkClaimEvidence(sections: seq<FactSection>, existing: map<string, Span>, ids: seq<string>) returns (rows: seq<Span>)
    ensures AreCopies(rows, existing, CitedLinks(sections, existing, ids))
  {
    var seen: set<string> := {};
    rows := [];
    for k := 0 to |ids|
      invariant forall link :: link in seen <==> link in EvidenceOf(sections, ids, k)
      invariant var links := EvidenceOf(sections, ids, k); AreCopies(rows, existing, FirstLinks(existing, links, |links|))
    {
      var fact := Lookup(sections, ids[k]);
      if fact.Some? {
        seen, rows := LinkFactEvidence(existing, fact.value, seen, rows, EvidenceOf(sections, ids, k));
      } else {
        assert EvidenceOf(sections, ids, k) + [] == EvidenceOf(sections, ids, k);
      }
    }
  }

  /** Every existing link is copied once, and nothing else. */
  lemma {:induction false} LinksOnce(existing: map<string, Span>, links: seq<string>, n: nat, link: string)
    requires n <= |links|
    ensures multiset(FirstLinks(existing, links, n))[link] == if SeenBefore(links, n, link) && link in existing then 1 else 0
  {
    if n > 0 {
      LinksOnce(existing, links, n - 1, link);
      CountSnoc(FirstLinks(existing, links, n - 1), links[n - 1], link);
      SeenStep(links, n, link);
    }
  }

  lemma {:induction false} CountSnoc(links: seq<string>, last: string, link: string)
    ensures multiset(links + [last])[link] == multiset(links)[link] + if last == link then 1 else 0
  {
  }

  lemma {:induction false} SeenStep(links: seq<string>, n: nat, link: string)
    requires 0 < n <= |links|
    ensures SeenBefore(links, n, link) <==> SeenBefore(links, n - 1, link) || links[n - 1] == link
  {
  }

  lemma {:induction false} EvidenceContains(sections: seq<FactSection>, ids: seq<string>, n: nat, k: nat, link: string)
    requires k < n <= |ids| && Lookup(sections, ids[k]).Some? && link in Lookup(sections, ids[k]).value.evidence
    ensures link in EvidenceOf(sections, ids, n)
  {
    if k < n - 1 {
      EvidenceContains(sections, ids, n - 1, k, link);
    }
  }

  lemma {:induction false} EvidenceComesFrom(sections: seq<FactSection>, ids: seq<string>, n: nat, link: string) returns (k: nat)
    requires n <= |ids| && link in EvidenceOf(sections, ids, n)
    ensures k < n && Lookup(sections, ids[k]).Some? && link in Lookup(sections, ids[k]).value.evidence
  {
    if link in EvidenceOf(sections, ids, n - 1) {
      k := EvidenceComesFrom(sections, ids, n - 1, link);
    } else {
      k := n - 1;
    }
  }

  /** A claim gets a link exactly when it is stored and some fact the claim cites has it as evidence. */
  lemma {:induction false} LinkedExactlyWhen(sections: seq<FactSection>, existing: map<string, Span>, ids: seq<string>, link: string)
    ensures link in CitedLinks(sections, existing, ids)
            <==> link in existing
                 && exists k :: 0 <= k < |ids| && Lookup(sections, ids[k]).Some? && link in Lookup(sections, ids[k]).value.evidence
  {
    var links := EvidenceOf(sections, ids, |ids|);
    LinksOnce(existing, links, |links|, link);
    assert link in FirstLinks(existing, links, |links|) <==> link in multiset(FirstLinks(existing, links, |links|));
    if link in links {
      var k := EvidenceComesFrom(sections, ids, |ids|, link);
    }
    if k :| 0 <= k < |ids| && Lookup(sections, ids[k]).Some? && link in Lookup(sections, ids[k]).value.evidence {
      EvidenceContains(sections, ids, |ids|, k, link);
      var i := PlaceOf(links, link);
      assert SeenBefore(links, |links|, link);
    }
  }

  function IsFirst(existing: map<string, Span>, links: seq<string>): nat -> bool {
    (k: nat) => k < |links| && links[k] in existing && !SeenBefore(links, k, links[k])
  }

  lemma {:induction false} FirstLinksCounted(existing: map<string, Span>, links: seq<string>, n: nat)
    requires n <= |links|
    ensures |FirstLinks(existing, links, n)| == |Places(n, IsFirst(existing, links))|
  {
    if n > 0 {
      FirstLinksCounted(existing, links, n - 1);
    }
  }

  /** Links come in the order of their first occurrence. */
  lemma {:induction false} FirstLinksInOrder(existing: map<string, Span>, links: seq<string>, n: nat, i: nat)
    requires n <= |links| && i < |FirstLinks(existing, links, n)|
    ensures i < |Places(n, IsFirst(existing, links))| && Selects(Places(n, IsFirst(existing, links)), n, IsFirst(existing, links))
    ensures var k := Places(n, IsFirst(existing, links))[i]; k < |links| && FirstLinks(existing, links, n)[i] == links[k]
  {
    PlacesSelect(n, IsFirst(existing, links));
    FirstLinksCounted(existing, links, n);
    FirstLinksCounted(existing, links, n - 1);
    if i < |FirstLinks(existing, links, n - 1)| {
      FirstLinksInOrder(existing, links, n - 1, i);
    }
  }

  /** The evidence the facts name is stored. */
  ghost predicate EvidenceExists(sections: seq<FactSection>, existing: map<string, Span>) {
    forall id :: Lookup(sections, id).Some? ==> forall link <- Lookup(sections, id).value.evidence :: link in existing
  }

  /** A fact or inference that is shown in a section with facts carries at least one citation. */
  lemma {:induction false} ShownFactsAreCited(
    sections: seq<FactSection>, existing: map<string, Span>, reply: seq<ReplySection>, i: nat)
    requires IsPayload(sections) && i < |EligiblePlan(sections, reply)|
    requires EvidenceExists(sections, existing)
    ensures var c := EligiblePlan(sections, reply)[i];
            c.section in ELIGIBLE
            && (SectionFacts(sections, c.section) != [] && c.status == Valid && c.claimType != Suggestion
                ==> CitedLinks(sections, existing, c.cited) != [])
  {
    var c := EligiblePlan(sections, reply)[i];
    ValidClaimsAreGrounded(sections, reply, i);
    if SectionFacts(sections, c.section) != [] && c.status == Valid && c.claimType != Suggestion {
      GroundedIsCited(sections, existing, c);
    }
  }

  lemma {:induction false} GroundedIsCited(sections: seq<FactSection>, existing: map<string, Span>, c: PlannedClaim)
    requires IsGrounded(sections, c)
    requires EvidenceExists(sections, existing)
    ensures CitedLinks(sections, existing, c.cited) != []
  {
    var id :| id in c.cited && HasEvidence(sections, id);
    var k :| 0 <= k < |c.cited| && c.cited[k] == id;
    var link := Lookup(sections, id).value.evidence[0];
    var links := EvidenceOf(sections, c.cited, |c.cited|);
    EvidenceContains(sections, c.cited, |c.cited|, k, link);
    LinksOnce(existing, links, |links|, link);
    assert link in multiset(FirstLinks(existing, links, |links|));
  }

  // ----- Markdown ----------------------------------------------------------

  /** A stored claim with its evidence links, oldest first. */
  datatype Record = Record(ordinal: nat, claim: PlannedClaim, links: seq<Span>)

  const HEADINGS: seq<(Key, string)> := [
    (ObjectiveAndScope, "Objective and Scope"),
    (CurrentStage, "Current Stage"),
    (RecentChanges, "Recent Changes"),
    (NextMilestone, "Next Milestone"),
    (OpenCommitments, "Open Commitments"),
    (Decisions, "Decisions"),
    (RisksAndBlockers, "Risks and Blockers"),
    (UnresolvedQuestions, "Unresolved Questions")
  ]

  /** The Markdown has the two opening sections and then those the model may write, in the order they are planned in. */
  lemma {:induction false} HeadingsFollowPlan(k: nat)
    requires k < |HEADINGS|
    ensures |HEADINGS| == 2 + |ELIGIBLE|
    ensures HEADINGS[k].0 == if k == 0 then ObjectiveAndScope else if k == 1 then CurrentStage else ELIGIBLE[k - 2]
  {
    assert k in {0, 1, 2, 3, 4, 5, 6, 7};
  }

  /** The valid records of one section among the first `n`, in stored order. */
  function ValidOf(records: seq<Record>, n: nat, key: Key): seq<Record>
    requires n <= |records|
  {
    if n == 0 then []
    else if records[n - 1].claim.status == Valid && records[n - 1].claim.section == key then
      ValidOf(records, n - 1, key) + [records[n - 1]]
    else ValidOf(records, n - 1, key)
  }

  function Insert(sorted: seq<Record>, r: Record): seq<Record> {
    if sorted == [] || sorted[|sorted| - 1].ordinal <= r.ordinal then sorted + [r]
    else Insert(sorted[..|sorted| - 1], r) + [sorted[|sorted| - 1]]
  }

  /** Stable, by ordinal. */
  function SortedUpTo(records: seq<Record>, n: nat): seq<Record>
    requires n <= |records|
  {
    if n == 0 then [] else Insert(SortedUpTo(records, n - 1), records[n - 1])
  }

  function Shown(records: seq<Record>, key: Key): seq<Record> {
    var valid := ValidOf(records, |records|, key);
    SortedUpTo(valid, |valid|)
  }

  /** A claim's line: what kind of claim it is, unless it is a fact, its text, and the markers of its evidence. */
  predicate IsBullet(line: string, r: Record, artifacts: map<string, Artifact>) {
    && (r.claim.claimType == FactClaim ==> line == "- " + r.claim.text + CitationOf(artifacts, r.links))
    && (r.claim.claimType == Inference ==> line == "- **Inference:** " + r.claim.text + CitationOf(artifacts, r.links))
    && (r.claim.claimType == Suggestion ==> line == "- **Suggestion:** " + r.claim.text + CitationOf(artifacts, r.links))
  }

  /** A section's lines: its heading, then one line per claim, or one that says there is none, then an empty one. */
  predicate IsSection(lines: seq<string>, heading: string, shown: seq<Record>, artifacts: map<string, Artifact>) {
    && |lines| == 2 + (if shown == [] then 1 else |shown|)
    && lines[0] == "## " + heading && lines[|lines| - 1] == ""
    && (shown == [] ==> lines[1] == "- No accepted items.")
    && forall i :: 0 <= i < |shown| ==> IsBullet(lines[1 + i], shown[i], artifacts)
  }

  function TitleLines(name: string): seq<string> {
    ["# Current Project Brief \U{2014} " + name, ""]
  }

  function Group(bySection: map<Key, seq<Record>>, key: Key): seq<Record> {
    if key in bySection then bySection[key] else []
  }

  method GroupValid(records: seq<Record>) returns (bySection: map<Key, seq<Record>>)
    ensures forall key :: Group(bySection, key) == ValidOf(records, |records|, key)
  {
    bySection := map[];
    for i := 0 to |records|
      invariant forall key :: Group(bySection, key) == ValidOf(records, i, key)
    {
      var r := records[i];
      if r.claim.status == Valid {
        bySection := bySection[r.claim.section := Group(bySection, r.claim.section) + [r]];
      }
    }
  }

  method RenderBullet(artifacts: map<string, Artifact>, r: Record) returns (line: string)
    ensures IsBullet(line, r, artifacts)
  {
    var prefix := "";
    if r.claim.claimType == Inference {
      prefix := "**Inference:** ";
    } else if r.claim.claimType == Suggestion {
      prefix := "**Suggestion:** ";
    }
    var citation := CitationMarkdown(artifacts, r.links);
    line := "- " + prefix + r.claim.text + citation;
  }

  method RenderSection(artifacts: map<string, Artifact>, heading: string, shown: seq<Record>) returns (lines: seq<string>)
    ensures IsSection(lines, heading, shown, artifacts)
  {
    lines := ["## " + heading];
    if shown == [] {
      lines := lines + ["- No accepted items."];
    }
    for i := 0 to |shown|
      invariant |lines| == if shown == [] then 2 else 1 + i
      invariant lines[0] == "## " + heading && (shown == [] ==> lines[1] == "- No accepted items.")
      invariant forall j :: 0 <= j < i ==> IsBullet(lines[1 + j], shown[j], artifacts)
    {
      var line := RenderBullet(artifacts, shown[i]);
      lines := lines + [line];
    }
    lines := lines + [""];
  }

  /** The first `n` sections are rendered, in the order of the headings. */
  predicate AreSections(sections: seq<seq<string>>, n: nat, records: seq<Record>, artifacts: map<string, Artifact>) {
    && |sections| == n <= |HEADINGS|
    && forall k :: 0 <= k < n ==> IsSection(sections[k], HEADINGS[k].1, Shown(records, HEADINGS[k].0), artifacts)
  }

  lemma {:induction false} OneMoreSection(
    sections: seq<seq<string>>, n: nat, section: seq<string>, records: seq<Record>, artifacts: map<string, Artifact>)
    requires AreSections(sections, n, records, artifacts) && n < |HEADINGS|
    requires IsSection(section, HEADINGS[n].1, Shown(records, HEADINGS[n].0), artifacts)
    ensures AreSections(sections + [section], n + 1, records, artifacts)
  {
  }

  /** The returned text is the title, then the lines of the sections in their order; `sections` tells them apart. */
  method RenderMarkdown(artifacts: map<string, Artifact>, name: string, records: seq<Record>)
    returns (markdown: string, ghost sections: seq<seq<string>>)
    ensures markdown == RStrip(Join("\n", TitleLines(name) + Concat(sections))) + "\n"
    ensures AreSections(sections, |HEADINGS|, records, artifacts)
  {
    var bySection := GroupValid(records);
    var lines := ["# Current Project Brief \U{2014} " + name, ""];
    sections := [];
    assert lines == TitleLines(name) + Concat<string>([]);
    for k := 0 to |HEADINGS|
      invariant lines == TitleLines(name) + Concat(sections)
      invariant AreSections(sections, k, records, artifacts)
    {
      var (key, heading) := HEADINGS[k];
      var valid := Group(bySection, key);
      var section := RenderSection(artifacts, heading, SortedUpTo(valid, |valid|));
      OneMoreSection(sections, k, section, records, artifacts);
      ConcatSnoc(sections, section);
      Regroup(TitleLines(name), Concat(sections), section);
      lines := lines + section;
      sections := sections + [section];
    }
    markdown := RStrip(Join("\n", lines)) + "\n";
  }

  // ----- which claims a section shows --------------------------------------

  function ValidIn(key: Key): Record -> bool {
    (r: Record) => r.claim.status == Valid && r.claim.section == key
  }

  lemma {:induction false} ValidIsFilter(records: seq<Record>, n: nat, key: Key)
    requires n <= |records|
    ensures ValidOf(records, n, key) == Filtered(records, n, ValidIn(key))
  {
    if n > 0 {
      ValidIsFilter(records, n - 1, key);
    }
  }

  lemma {:induction false} InsertPermutes(sorted: seq<Record>, r: Record)
    ensures multiset(Insert(sorted, r)) == multiset(sorted) + multiset{r}
  {
    if !(sorted == [] || sorted[|sorted| - 1].ordinal <= r.ordinal) {
      InsertPermutes(sorted[..|sorted| - 1], r);
      MultisetLast(sorted);
    }
  }

  lemma {:induction false} InsertAscends(sorted: seq<Record>, r: Record)
    requires IsAscending(sorted)
    ensures IsAscending(Insert(sorted, r))
    ensures var all := Insert(sorted, r);
            all[|all| - 1] == r || (sorted != [] && all[|all| - 1] == sorted[|sorted| - 1])
  {
    if !(sorted == [] || sorted[|sorted| - 1].ordinal <= r.ordinal) {
      InsertAscends(sorted[..|sorted| - 1], r);
      AscendingSnoc(Insert(sorted[..|sorted| - 1], r), sorted[|sorted| - 1]);
    } else {
      AscendingSnoc(sorted, r);
    }
  }

  lemma {:induction false} AscendingSnoc(records: seq<Record>, r: Record)
    requires IsAscending(records) && (records != [] ==> records[|records| - 1].ordinal <= r.ordinal)
    ensures IsAscending(records + [r])
  {
  }

  lemma {:induction false} SortedAscends(records: seq<Record>, n: nat)
    requires n <= |records|
    ensures IsAscending(SortedUpTo(records, n))
  {
    if n > 0 {
      SortedAscends(records, n - 1);
      InsertAscends(SortedUpTo(records, n - 1), records[n - 1]);
    }
  }

  lemma {:induction false} SortedPermutes(records: seq<Record>, n: nat)
    requires n <= |records|
    ensures multiset(SortedUpTo(records, n)) == multiset(records[..n])
  {
    if n == 0 {
      assert records[..0] == [];
    } else {
      SortedPermutes(records, n - 1);
      InsertPermutes(SortedUpTo(records, n - 1), records[n - 1]);
      MultisetTake(records, n);
    }
  }

  /** A section shows exactly its valid claims, each once, in the order of their ordinals. */
  lemma {:induction false} ShowsValidInOrder(records: seq<Record>, key: Key)
    ensures IsAscending(Shown(records, key))
    ensures multiset(Shown(records, key)) == multiset(Filtered(records, |records|, ValidIn(key)))
  {
    var valid := ValidOf(records, |records|, key);
    ValidIsFilter(records, |records|, key);
    SortedAscends(valid, |valid|);
    SortedPermutes(valid, |valid|);
    assert valid[..|valid|] == valid;
  }

  // ----- the rendering shows the plan --------------------------------------

  /** The records of a plan: a claim's ordinal is its place in it. */
  predicate AreRecordsOf(records: seq<Record>, plan: seq<PlannedClaim>) {
    |records| == |plan| && forall i :: 0 <= i < |plan| ==> records[i].ordinal == i && records[i].claim == plan[i]
  }

  predicate IsAscending(records: seq<Record>) {
    forall i, j :: 0 <= i < j < |records| ==> records[i].ordinal <= records[j].ordinal
  }

  lemma {:induction false} SortKeepsAscending(records: seq<Record>, n: nat)
    requires n <= |records| && IsAscending(records)
    ensures SortedUpTo(records, n) == records[..n]
  {
    if n > 0 {
      SortKeepsAscending(records, n - 1);
      assert records[..n] == records[..n - 1] + [records[n - 1]];
    }
  }

  lemma {:induction false} ValidAreAscending(records: seq<Record>, n: nat, key: Key)
    requires n <= |records| && IsAscending(records)
    ensures IsAscending(ValidOf(records, n, key))
    ensures forall i :: 0 <= i < |ValidOf(records, n, key)| ==> ValidOf(records, n, key)[i] in records[..n]
  {
    if n > 0 {
      ValidAreAscending(records, n - 1, key);
      var before := ValidOf(records, n - 1, key);
      forall i | 0 <= i < |before| ensures before[i] in records[..n] && before[i].ordinal <= records[n - 1].ordinal {
        var j :| 0 <= j < n - 1 && records[..n - 1][j] == before[i];
        assert records[..n][j] == before[i];
      }
      assert records[..n][n - 1] == records[n - 1];
    }
  }

  /** Each section's bullets are its valid claims, in the order they were planned. */
  lemma {:induction false} ShowsInPlanOrder(records: seq<Record>, plan: seq<PlannedClaim>, key: Key)
    requires AreRecordsOf(records, plan)
    ensures Shown(records, key) == ValidOf(records, |records|, key)
  {
    var valid := ValidOf(records, |records|, key);
    ValidAreAscending(records, |records|, key);
    SortKeepsAscending(valid, |valid|);
    assert valid[..|valid|] == valid;
  }

  lemma {:induction false} ValidOfEmpty(records: seq<Record>, n: nat, key: Key)
    requires n <= |records|
    ensures ValidOf(records, n, key) == []
            <==> forall i :: 0 <= i < n ==> !(records[i].claim.status == Valid && records[i].claim.section == key)
  {
    if n > 0 {
      ValidOfEmpty(records, n - 1, key);
    }
  }

  /** Each section's plan lies in the flattened one as one piece. */
  lemma {:induction false} FlattenHolds(plans: seq<seq<PlannedClaim>>, n: nat, k: nat, j: nat)
    requires k < n <= |plans| && j < |plans[k]|
    ensures |Flatten(plans, k)| + j < |Flatten(plans, n)|
    ensures Flatten(plans, n)[|Flatten(plans, k)| + j] == plans[k][j]
  {
    FlattenGrows(plans, k + 1, n);
  }

  lemma {:induction false} DistinctEligible(k: nat, m: nat)
    requires k < |ELIGIBLE| && m < |ELIGIBLE| && ELIGIBLE[k] == ELIGIBLE[m]
    ensures k == m
  {
  }

  /** A whole plan has a valid claim for a section exactly when that section's own plan has one. */
  lemma {:induction false} SectionShown(sections: seq<FactSection>, reply: seq<ReplySection>, records: seq<Record>, k: nat)
    requires IsPayload(sections) && k < |ELIGIBLE| && AreRecordsOf(records, Plan(sections, reply))
    ensures Shown(records, ELIGIBLE[k]) == [] <==> !AnyValid(PlanOf(sections, reply, ELIGIBLE[k]))
  {
    var key, plan := ELIGIBLE[k], EligiblePlan(sections, reply);
    var here := PlanOf(sections, reply, key);
    EligibleKey(k);
    ShowsInPlanOrder(records, Plan(sections, reply), key);
    ValidOfEmpty(records, |records|, key);
    if AnyValid(here) {
      var j :| 0 <= j < |here| && here[j].status == Valid;
      var i := ShownThere(sections, reply, k, j);
      assert records[i].claim == here[j];
    } else {
      forall i | 0 <= i < |records| && records[i].claim.section == key ensures records[i].claim.status != Valid {
        var j := PlannedHere(sections, reply, k, i);
        assert here[j] == records[i].claim;
      }
    }
  }

  lemma {:induction false} ShownThere(sections: seq<FactSection>, reply: seq<ReplySection>, k: nat, j: nat) returns (i: nat)
    requires IsPayload(sections) && k < |ELIGIBLE| && j < |PlanOf(sections, reply, ELIGIBLE[k])|
    ensures i < |Plan(sections, reply)| && Plan(sections, reply)[i] == PlanOf(sections, reply, ELIGIBLE[k])[j]
    ensures Plan(sections, reply)[i].section == ELIGIBLE[k]
  {
    var at := EligibleHolds(sections, reply, k, j);
    PlanSections(sections, reply, ELIGIBLE[k], j);
    EligibleInPlan(sections, reply, at);
    i := 2 + at;
  }

  lemma {:induction false} EligibleHolds(sections: seq<FactSection>, reply: seq<ReplySection>, k: nat, j: nat) returns (at: nat)
    requires IsPayload(sections) && k < |ELIGIBLE| && j < |PlanOf(sections, reply, ELIGIBLE[k])|
    ensures at < |EligiblePlan(sections, reply)| && EligiblePlan(sections, reply)[at] == PlanOf(sections, reply, ELIGIBLE[k])[j]
  {
    SectionPlanIs(sections, reply, k);
    at := HeldAt(SectionPlans(sections, reply), EligiblePlan(sections, reply), k, PlanOf(sections, reply, ELIGIBLE[k]), j);
  }

  lemma {:induction false} HeldAt(plans: seq<seq<PlannedClaim>>, all: seq<PlannedClaim>, k: nat, here: seq<PlannedClaim>, j: nat)
    returns (at: nat)
    requires k < |plans| && plans[k] == here && j < |here| && all == Flatten(plans, |plans|)
    ensures at < |all| && all[at] == here[j]
  {
    FlattenHolds(plans, |plans|, k, j);
    at := |Flatten(plans, k)| + j;
  }

  lemma {:induction false} EligibleInPlan(sections: seq<FactSection>, reply: seq<ReplySection>, at: nat)
    requires IsPayload(sections) && at < |EligiblePlan(sections, reply)|
    ensures 2 + at < |Plan(sections, reply)| && Plan(sections, reply)[2 + at] == EligiblePlan(sections, reply)[at]
  {
  }

  /** A planned claim of an eligible section comes from that section's own plan. */
  lemma {:induction false} PlannedHere(sections: seq<FactSection>, reply: seq<ReplySection>, k: nat, i: nat) returns (j: nat)
    requires IsPayload(sections) && k < |ELIGIBLE| && i < |Plan(sections, reply)|
    requires Plan(sections, reply)[i].section == ELIGIBLE[k]
    ensures j < |PlanOf(sections, reply, ELIGIBLE[k])| && PlanOf(sections, reply, ELIGIBLE[k])[j] == Plan(sections, reply)[i]
  {
    EligibleKey(k);
    assert i >= 2;
    var m;
    EligibleInPlan(sections, reply, i - 2);
    m, j := EligibleFrom(sections, reply, i - 2);
    PlanSections(sections, reply, ELIGIBLE[m], j);
    DistinctEligible(k, m);
  }

  lemma {:induction false} EligibleFrom(sections: seq<FactSection>, reply: seq<ReplySection>, at: nat) returns (m: nat, j: nat)
    requires IsPayload(sections) && at < |EligiblePlan(sections, reply)|
    ensures m < |ELIGIBLE| && j < |PlanOf(sections, reply, ELIGIBLE[m])|
    ensures EligiblePlan(sections, reply)[at] == PlanOf(sections, reply, ELIGIBLE[m])[j]
  {
    m, j := FlattenContains(SectionPlans(sections, reply), |ELIGIBLE|, at);
    SectionPlanIs(sections, reply, m);
  }

  predicate AnyCites(records: seq<Record>, id: string) {
    exists i :: 0 <= i < |records| && id in records[i].claim.cited
  }

  predicate ValidHereCites(r: Record, key: Key, id: string) {
    r.claim.status == Valid && r.claim.section == key && id in r.claim.cited
  }

  lemma {:induction false} ValidOfCites(records: seq<Record>, n: nat, key: Key, id: string)
    requires n <= |records|
    ensures AnyCites(ValidOf(records, n, key), id) <==> exists i :: 0 <= i < n && ValidHereCites(records[i], key, id)
  {
    if n > 0 {
      var before, here := ValidOf(records, n - 1, key), ValidOf(records, n, key);
      ValidOfCites(records, n - 1, key, id);
      if i :| 0 <= i < |before| && id in before[i].claim.cited {
        assert here[i] == before[i];
      }
      if ValidHereCites(records[n - 1], key, id) {
        assert here[|before|] == records[n - 1];
      }
      if i :| 0 <= i < |here| && id in here[i].claim.cited {
        assert i < |before| ==> before[i] == here[i];
      }
    }
  }

  /** The bullets of a section cite what its own plan shows. */
  lemma {:induction false} BulletsCite(
    sections: seq<FactSection>, reply: seq<ReplySection>, records: seq<Record>, k: nat, id: string)
    requires IsPayload(sections) && k < |ELIGIBLE| && AreRecordsOf(records, Plan(sections, reply))
    ensures AnyCites(Shown(records, ELIGIBLE[k]), id) <==> Shows(PlanOf(sections, reply, ELIGIBLE[k]), id)
  {
    var key, here := ELIGIBLE[k], PlanOf(sections, reply, ELIGIBLE[k]);
    ShowsInPlanOrder(records, Plan(sections, reply), key);
    ValidOfCites(records, |records|, key, id);
    if j :| 0 <= j < |here| && here[j].status == Valid && id in here[j].cited {
      var i := ShownThere(sections, reply, k, j);
      assert ValidHereCites(records[i], key, id);
    }
    if i :| 0 <= i < |records| && ValidHereCites(records[i], key, id) {
      var j := PlannedHere(sections, reply, k, i);
      assert here[j] == records[i].claim;
    }
  }

  /**
   * An accepted fact is cited by a bullet of its section exactly when some claim the reply makes there passes and asks
   * for it, or no claim of the section passes and the fact has evidence.
   */
  lemma {:induction false} FactReachesReaderExactlyWhen(
    sections: seq<FactSection>, reply: seq<ReplySection>, records: seq<Record>, k: nat, f: nat)
    requires IsPayload(sections) && k < |ELIGIBLE| && AreRecordsOf(records, Plan(sections, reply))
    requires IsConsistent(sections, ELIGIBLE[k], SectionFacts(sections, ELIGIBLE[k]))
    requires f < |SectionFacts(sections, ELIGIBLE[k])|
    ensures var fact := SectionFacts(sections, ELIGIBLE[k])[f];
            AnyCites(Shown(records, ELIGIBLE[k]), fact.id)
            <==> Reaches(sections, ELIGIBLE[k], fact, Returned(reply, |reply|, ELIGIBLE[k]))
  {
    var key := ELIGIBLE[k];
    EligibleKey(k);
    BulletsCite(sections, reply, records, k, SectionFacts(sections, key)[f].id);
    FactShownExactlyWhen(sections, key, SectionFacts(sections, key), Returned(reply, |reply|, key), f);
  }

  /** Some line between the section's heading and its end is that of a valid claim of the section that cites `id`. */
  ghost predicate CitedInLines(
    lines: seq<string>, records: seq<Record>, key: Key, artifacts: map<string, Artifact>, id: string)
  {
    exists i, r :: 0 < i < |lines| - 1 && r in records && ValidHereCites(r, key, id) && IsBullet(lines[i], r, artifacts)
  }

  /** So it is with the section's lines in the returned Markdown. */
  lemma {:induction false} FactIsInMarkdownExactlyWhen(
    sections: seq<FactSection>, reply: seq<ReplySection>, records: seq<Record>, k: nat, f: nat,
    lines: seq<string>, heading: string, artifacts: map<string, Artifact>)
    requires IsPayload(sections) && k < |ELIGIBLE| && AreRecordsOf(records, Plan(sections, reply))
    requires IsConsistent(sections, ELIGIBLE[k], SectionFacts(sections, ELIGIBLE[k]))
    requires f < |SectionFacts(sections, ELIGIBLE[k])|
    requires IsSection(lines, heading, Shown(records, ELIGIBLE[k]), artifacts)
    ensures var fact := SectionFacts(sections, ELIGIBLE[k])[f];
            CitedInLines(lines, records, ELIGIBLE[k], artifacts, fact.id)
            <==> Reaches(sections, ELIGIBLE[k], fact, Returned(reply, |reply|, ELIGIBLE[k]))
  {
    FactReachesReaderExactlyWhen(sections, reply, records, k, f);
    LinesCite(lines, heading, records, ELIGIBLE[k], artifacts, SectionFacts(sections, ELIGIBLE[k])[f].id);
  }

  lemma {:induction false} LinesCite(
    lines: seq<string>, heading: string, records: seq<Record>, key: Key, artifacts: map<string, Artifact>, id: string)
    requires IsSection(lines, heading, Shown(records, key), artifacts)
    ensures CitedInLines(lines, records, key, artifacts, id) <==> AnyCites(Shown(records, key), id)
  {
    if AnyCites(Shown(records, key), id) {
      CitedIsInLines(lines, heading, records, key, artifacts, id);
    }
    if CitedInLines(lines, records, key, artifacts, id) {
      var i, r :| 0 < i < |lines| - 1 && r in records && ValidHereCites(r, key, id) && IsBullet(lines[i], r, artifacts);
      ShownMember(records, key, r);
      var j := PlaceOf(Shown(records, key), r);
    }
  }

  lemma {:induction false} CitedIsInLines(
    lines: seq<string>, heading: string, records: seq<Record>, key: Key, artifacts: map<string, Artifact>, id: string)
    requires IsSection(lines, heading, Shown(records, key), artifacts) && AnyCites(Shown(records, key), id)
    ensures CitedInLines(lines, records, key, artifacts, id)
  {
    var shown := Shown(records, key);
    var i :| 0 <= i < |shown| && id in shown[i].claim.cited;
    ShownMember(records, key, shown[i]);
    assert ValidHereCites(shown[i], key, id) && IsBullet(lines[1 + i], shown[i], artifacts);
  }

  lemma {:induction false} ShownMember(records: seq<Record>, key: Key, r: Record)
    ensures r in Shown(records, key) <==> r in records && r.claim.status == Valid && r.claim.section == key
  {
    ShowsValidInOrder(records, key);
    FilteredMembers(records, ValidIn(key), r);
    MultisetMember(Shown(records, key), Filtered(records, |records|, ValidIn(key)), r);
  }

  /**
   * A section says "No accepted items" exactly when it has accepted facts, none of them with evidence, and no model
   * claim passed; a section without facts shows its placeholder instead.
   */
  lemma {:induction false} NoItemsExactlyWhen(sections: seq<FactSection>, reply: seq<ReplySection>, records: seq<Record>, k: nat)
    requires IsPayload(sections) && k < |ELIGIBLE| && AreRecordsOf(records, Plan(sections, reply))
    requires IsConsistent(sections, ELIGIBLE[k], SectionFacts(sections, ELIGIBLE[k]))
    ensures Shown(records, ELIGIBLE[k]) == []
            <==> && SectionFacts(sections, ELIGIBLE[k]) != []
                 && !AnyValid(ModelClaims(sections, ELIGIBLE[k], Returned(reply, |reply|, ELIGIBLE[k])))
                 && forall f <- SectionFacts(sections, ELIGIBLE[k]) :: f.evidence == []
  {
    SectionShown(sections, reply, records, k);
    EligibleKey(k);
    PlanHasValid(sections, ELIGIBLE[k], SectionFacts(sections, ELIGIBLE[k]), Returned(reply, |reply|, ELIGIBLE[k]));
  }

  lemma {:induction false} PlanHasValid(sections: seq<FactSection>, key: Key, facts: seq<Fact>, claims: seq<ClaimOutput>)
    requires !IsSelfEvidencing(key) && IsConsistent(sections, key, facts)
    ensures AnyValid(SectionPlan(sections, key, facts, claims))
            <==> facts == [] || AnyValid(ModelClaims(sections, key, claims)) || exists f :: f in facts && f.evidence != []
  {
    if facts == [] {
      assert SectionPlan(sections, key, facts, claims)[0].status == Valid;
    } else {
      AnyValidConcat(ModelClaims(sections, key, claims), Fallbacks(sections, key, facts));
      FallbacksHaveValid(sections, key, facts);
    }
  }

  lemma {:induction false} AnyValidConcat(a: seq<PlannedClaim>, b: seq<PlannedClaim>)
    ensures AnyValid(a + b) <==> AnyValid(a) || AnyValid(b)
  {
    if i :| 0 <= i < |a| && a[i].status == Valid {
      assert (a + b)[i].status == Valid;
    }
    if i :| 0 <= i < |b| && b[i].status == Valid {
      assert (a + b)[|a| + i].status == Valid;
    }
  }

  lemma {:induction false} FallbacksHaveValid(sections: seq<FactSection>, key: Key, facts: seq<Fact>)
    requires !IsSelfEvidencing(key) && IsConsistent(sections, key, facts)
    ensures AnyValid(Fallbacks(sections, key, facts)) <==> exists f :: f in facts && f.evidence != []
  {
    var fallbacks := Fallbacks(sections, key, facts);
    forall i | 0 <= i < |facts| ensures fallbacks[i].status == Valid <==> facts[i].evidence != [] {
      FallbackValidExactlyWhen(sections, key, facts, i);
    }
    if f :| f in facts && f.evidence != [] {
      var i :| 0 <= i < |facts| && facts[i] == f;
      assert fallbacks[i].status == Valid;
    }
    if i :| 0 <= i < |facts| && fallbacks[i].status == Valid {
      assert facts[i] in facts;
    }
  }
}
