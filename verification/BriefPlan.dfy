/** Planning a brief: what an arbitrary reply makes of the facts. */
module BriefPlan {
  import opened Selections
  import opened Text

  /** The eight section headings; a reply may name anything else. */
  datatype Key =
    | ObjectiveAndScope | CurrentStage
    | RecentChanges | NextMilestone | OpenCommitments | Decisions | RisksAndBlockers | UnresolvedQuestions
    | Unknown(heading: string)

  /** The sections a model may compose, in the fixed order of the brief. */
  const ELIGIBLE: seq<Key> :=
    [RecentChanges, NextMilestone, OpenCommitments, Decisions, RisksAndBlockers, UnresolvedQuestions]

  predicate IsEligible(key: Key) {
    !key.Unknown? && !IsSelfEvidencing(key)
  }

  predicate IsSelfEvidencing(key: Key) {
    key.ObjectiveAndScope? || key.CurrentStage?
  }

  function EmptySectionText(key: Key): string {
    match key
    case RecentChanges => "No recent accepted changes."
    case NextMilestone => "No accepted upcoming milestone."
    case OpenCommitments => "No accepted open commitments."
    case Decisions => "No accepted active decisions."
    case RisksAndBlockers => "No accepted open risks or blockers."
    case _ => "No accepted unresolved questions."
  }

  datatype FactType = ProjectMeta | CurrentState | TransitionFact | MeetingMeta

  datatype Fact = Fact(
    id: string, section: Key, factType: FactType, title: string, detail: Option<string>, status: Option<string>,
    owner: Option<string>, due: Option<string>, transition: Option<string>, previous: Option<string>,
    item: Option<string>, version: Option<string>, evidence: seq<string>)

  datatype FactSection = FactSection(key: Key, facts: seq<Fact>)

  datatype ClaimType = FactClaim | Inference | Suggestion

  datatype ClaimStatus = Valid | Unsupported | InvalidReference

  datatype ClaimOutput = ClaimOutput(text: string, claimType: ClaimType, factIds: seq<string>)

  datatype ReplySection = ReplySection(key: Key, claims: seq<ClaimOutput>)

  datatype PlannedClaim = PlannedClaim(
    section: Key, text: string, claimType: ClaimType, cited: seq<string>, status: ClaimStatus,
    item: Option<string>, version: Option<string>)

  // ----- the fact payload --------------------------------------------------

  /** A later fact with the same id shadows an earlier one. */
  function FactIn(facts: seq<Fact>, n: nat, id: string): Option<Fact>
    requires n <= |facts|
  {
    if n == 0 then None
    else if facts[n - 1].id == id then Some(facts[n - 1])
    else FactIn(facts, n - 1, id)
  }

  function LookupUpTo(sections: seq<FactSection>, n: nat, id: string): Option<Fact>
    requires n <= |sections|
  {
    if n == 0 then None
    else
      var here := FactIn(sections[n - 1].facts, |sections[n - 1].facts|, id);
      if here.Some? then here else LookupUpTo(sections, n - 1, id)
  }

  function Lookup(sections: seq<FactSection>, id: string): Option<Fact> {
    LookupUpTo(sections, |sections|, id)
  }

  function SectionUpTo(sections: seq<FactSection>, n: nat, key: Key): Option<seq<Fact>>
    requires n <= |sections|
  {
    if n == 0 then None
    else if sections[n - 1].key == key then Some(sections[n - 1].facts)
    else SectionUpTo(sections, n - 1, key)
  }

  /** The facts of a section; a payload without it makes the planner fail. */
  function SectionFacts(sections: seq<FactSection>, key: Key): seq<Fact>
    requires HasSection(sections, key)
  {
    SectionUpTo(sections, |sections|, key).value
  }

  predicate HasSection(sections: seq<FactSection>, key: Key) {
    SectionUpTo(sections, |sections|, key).Some?
  }

  /** What the planner demands of its payload: every section it reads is there, and the scope is stated. */
  predicate IsPayload(sections: seq<FactSection>) {
    && HasSection(sections, ObjectiveAndScope) && SectionFacts(sections, ObjectiveAndScope) != []
    && HasSection(sections, CurrentStage)
    && forall i :: 0 <= i < |ELIGIBLE| ==> HasSection(sections, ELIGIBLE[i])
  }

  // ----- one claim ---------------------------------------------------------

  predicate Resolves(sections: seq<FactSection>, key: Key, id: string) {
    Lookup(sections, id).Some? && Lookup(sections, id).value.section == key
  }

  predicate HasEvidence(sections: seq<FactSection>, id: string) {
    Lookup(sections, id).Some? && Lookup(sections, id).value.evidence != []
  }

  function Resolved(sections: seq<FactSection>, key: Key, ids: seq<string>, n: nat): seq<string>
    requires n <= |ids|
  {
    if n == 0 then []
    else if Resolves(sections, key, ids[n - 1]) then Resolved(sections, key, ids, n - 1) + [ids[n - 1]]
    else Resolved(sections, key, ids, n - 1)
  }

  predicate SomeEvidence(sections: seq<FactSection>, ids: seq<string>) {
    exists id :: id in ids && HasEvidence(sections, id)
  }

  function ClassifyClaim(sections: seq<FactSection>, key: Key, claimType: ClaimType, ids: seq<string>): (ClaimStatus, seq<string>) {
    var resolved := Resolved(sections, key, ids, |ids|);
    if claimType == Suggestion then (Valid, resolved)
    else if resolved == [] then (InvalidReference, resolved)
    else if IsSelfEvidencing(key) then (Valid, resolved)
    else if !SomeEvidence(sections, resolved) then (Unsupported, resolved)
    else (Valid, resolved)
  }

  lemma {:induction false} ResolvedMember(sections: seq<FactSection>, key: Key, ids: seq<string>, n: nat, id: string)
    requires n <= |ids|
    ensures id in Resolved(sections, key, ids, n) <==> id in ids[..n] && Resolves(sections, key, id)
  {
    if n > 0 {
      ResolvedMember(sections, key, ids, n - 1, id);
      assert ids[..n] == ids[..n - 1] + [ids[n - 1]];
    }
  }

  /**
   * The verdict on a claim of any section: the facts it may cite are those it asked for that are of its section; it
   * is valid when it is a suggestion, or cites some fact that counts as evidence, and refers to nothing when it should
   * cite and cannot.
   */
  lemma {:induction false} ClassifiedExactlyWhen(sections: seq<FactSection>, key: Key, claimType: ClaimType, ids: seq<string>)
    ensures var (status, cited) := ClassifyClaim(sections, key, claimType, ids);
            && (forall id :: id in cited <==> id in ids && Resolves(sections, key, id))
            && (status == Valid <==>
                claimType == Suggestion
                || exists id :: id in ids && Resolves(sections, key, id) && (IsSelfEvidencing(key) || HasEvidence(sections, id)))
            && (status == InvalidReference <==> claimType != Suggestion && forall id :: id in ids ==> !Resolves(sections, key, id))
  {
    var resolved := Resolved(sections, key, ids, |ids|);
    assert ids[..|ids|] == ids;
    forall id ensures id in resolved <==> id in ids && Resolves(sections, key, id) {
      ResolvedMember(sections, key, ids, |ids|, id);
    }
    if resolved != [] {
      assert resolved[0] in resolved;
    }
  }

  function ResolveTest(sections: seq<FactSection>, key: Key): string -> bool {
    (id: string) => Resolves(sections, key, id)
  }

  /** Resolving keeps the request's order and repetitions. */
  lemma {:induction false} ResolvedInOrder(sections: seq<FactSection>, key: Key, ids: seq<string>, n: nat)
    requires n <= |ids|
    ensures Resolved(sections, key, ids, n) == Filtered(ids, n, ResolveTest(sections, key))
  {
    if n > 0 {
      ResolvedInOrder(sections, key, ids, n - 1);
    }
  }

  function PlanModelClaim(sections: seq<FactSection>, key: Key, claim: ClaimOutput): PlannedClaim {
    var (status, resolved) := ClassifyClaim(sections, key, claim.claimType, claim.factIds);
    var primary := if resolved == [] then None else Lookup(sections, resolved[0]);
    PlannedClaim(
      key, claim.text, claim.claimType,
      if status == Valid || resolved != [] then resolved else claim.factIds,
      status,
      if primary.Some? then primary.value.item else None,
      if primary.Some? then primary.value.version else None)
  }

  function Suffix(prefix: string, part: Option<string>): string {
    if part.Some? && part.value != "" then prefix + part.value else ""
  }

  /** The sentence that needs no model. */
  function DeterministicText(fact: Fact): string {
    if fact.factType == TransitionFact then
      fact.title + " \U{2014} " + Shown(fact.transition) + " (now " + Shown(fact.status) + ")"
      + Suffix("; ", fact.previous) + Suffix("; owner ", fact.owner) + "."
    else
      fact.title + Suffix(" \U{2014} status: ", fact.status) + Suffix(" \U{2014} owner: ", fact.owner)
      + Suffix(" \U{2014} due: ", fact.due) + "."
  }

  function Shown(part: Option<string>): string {
    if part.Some? then part.value else "None"
  }

  ghost predicate Mentions(text: string, part: string) {
    exists i, j :: 0 <= i <= j <= |text| && text[i..j] == part
  }

  lemma {:induction false} Appended(a: string, b: string, part: string)
    ensures Mentions(a, part) || Mentions(b, part) ==> Mentions(a + b, part)
  {
    if Mentions(a, part) {
      var i, j :| 0 <= i <= j <= |a| && a[i..j] == part;
      assert (a + b)[i..j] == part;
    } else if Mentions(b, part) {
      var i, j :| 0 <= i <= j <= |b| && b[i..j] == part;
      assert (a + b)[|a| + i..|a| + j] == part;
    }
  }

  lemma {:induction false} MentionsAll(part: string)
    ensures Mentions(part, part)
  {
    assert part[0..|part|] == part;
  }

  lemma {:induction false} SuffixMentions(prefix: string, stated: Option<string>, part: string)
    ensures stated == Some(part) ==> Mentions(Suffix(prefix, stated), part)
  {
    MentionsAll(part);
    Appended(prefix, part, part);
  }

  /** What is stated of a fact: a transition has no due date here, and any other fact no transition. */
  predicate IsStatedOf(fact: Fact, part: string) {
    || part == fact.title || fact.status == Some(part) || fact.owner == Some(part)
    || if fact.factType == TransitionFact then fact.transition == Some(part) || fact.previous == Some(part) else fact.due == Some(part)
  }

  /** The sentence written for a fact mentions everything that is stated of it. */
  lemma {:induction false} FallbackMentions(fact: Fact, part: string)
    requires IsStatedOf(fact, part)
    ensures Mentions(DeterministicText(fact), part)
  {
    MentionsAll(part);
    if fact.factType == TransitionFact {
      TransitionMentions(fact, part);
    } else {
      StateMentions(fact, part);
    }
  }

  /** And nothing is written for a part that is not stated, or stated to be empty. */
  lemma {:induction false} FallbackIsSilent(fact: Fact)
    ensures fact.owner == Some("") ==> DeterministicText(fact) == DeterministicText(fact.(owner := None))
    ensures fact.factType == TransitionFact && fact.previous == Some("")
            ==> DeterministicText(fact) == DeterministicText(fact.(previous := None))
    ensures fact.factType != TransitionFact && fact.status == Some("")
            ==> DeterministicText(fact) == DeterministicText(fact.(status := None))
    ensures fact.factType != TransitionFact && fact.due == Some("")
            ==> DeterministicText(fact) == DeterministicText(fact.(due := None))
  {
  }

  lemma {:induction false} StateMentions(fact: Fact, part: string)
    requires fact.factType != TransitionFact && IsStatedOf(fact, part) && Mentions(part, part)
    ensures Mentions(DeterministicText(fact), part)
  {
    var s, o := Suffix(" \U{2014} status: ", fact.status), Suffix(" \U{2014} owner: ", fact.owner);
    var d := Suffix(" \U{2014} due: ", fact.due);
    SuffixMentions(" \U{2014} status: ", fact.status, part);
    SuffixMentions(" \U{2014} owner: ", fact.owner, part);
    SuffixMentions(" \U{2014} due: ", fact.due, part);
    Appended(fact.title, s, part);
    Appended(fact.title + s, o, part);
    Appended(fact.title + s + o, d, part);
    Appended(fact.title + s + o + d, ".", part);
  }

  lemma {:induction false} TransitionMentions(fact: Fact, part: string)
    requires fact.factType == TransitionFact && IsStatedOf(fact, part) && Mentions(part, part)
    ensures Mentions(DeterministicText(fact), part)
  {
    var dash, t, now := " \U{2014} ", Shown(fact.transition), Shown(fact.status);
    var p, o := Suffix("; ", fact.previous), Suffix("; owner ", fact.owner);
    SuffixMentions("; ", fact.previous, part);
    SuffixMentions("; owner ", fact.owner, part);
    Appended(fact.title, dash, part);
    Appended(fact.title + dash, t, part);
    Appended(fact.title + dash + t, " (now ", part);
    Appended(fact.title + dash + t + " (now ", now, part);
    Appended(fact.title + dash + t + " (now " + now, ")", part);
    Appended(fact.title + dash + t + " (now " + now + ")", p, part);
    Appended(fact.title + dash + t + " (now " + now + ")" + p, o, part);
    Appended(fact.title + dash + t + " (now " + now + ")" + p + o, ".", part);
  }

  function FallbackClaim(sections: seq<FactSection>, key: Key, fact: Fact): PlannedClaim {
    var (status, resolved) := ClassifyClaim(sections, key, FactClaim, [fact.id]);
    PlannedClaim(key, DeterministicText(fact), FactClaim, resolved, status, fact.item, fact.version)
  }

  // ----- one section -------------------------------------------------------

  function ModelClaims(sections: seq<FactSection>, key: Key, claims: seq<ClaimOutput>): (planned: seq<PlannedClaim>)
    ensures |planned| == |claims|
    ensures forall i :: 0 <= i < |claims| ==> planned[i] == PlanModelClaim(sections, key, claims[i])
  {
    seq(|claims|, i requires 0 <= i < |claims| => PlanModelClaim(sections, key, claims[i]))
  }

  function Fallbacks(sections: seq<FactSection>, key: Key, facts: seq<Fact>): (planned: seq<PlannedClaim>)
    ensures |planned| == |facts|
    ensures forall i :: 0 <= i < |facts| ==> planned[i] == FallbackClaim(sections, key, facts[i])
  {
    seq(|facts|, i requires 0 <= i < |facts| => FallbackClaim(sections, key, facts[i]))
  }

  predicate AnyValid(planned: seq<PlannedClaim>) {
    exists i :: 0 <= i < |planned| && planned[i].status == Valid
  }

  function Placeholder(key: Key): PlannedClaim {
    PlannedClaim(key, EmptySectionText(key), FactClaim, [], Valid, None, None)
  }

  /** The plan of one section, given everything the reply said under its heading. */
  function SectionPlan(sections: seq<FactSection>, key: Key, facts: seq<Fact>, claims: seq<ClaimOutput>): seq<PlannedClaim> {
    if facts == [] then [Placeholder(key)]
    else
      var planned := ModelClaims(sections, key, claims);
      if AnyValid(planned) then planned else planned + Fallbacks(sections, key, facts)
  }

  /** Whatever is returned for a section without facts, it says one thing: a fact that cites nothing and is always shown. */
  lemma {:induction false} EmptySectionSaysSo(sections: seq<FactSection>, key: Key, claims: seq<ClaimOutput>)
    ensures var plan := SectionPlan(sections, key, [], claims);
            && |plan| == 1 && plan[0].section == key && plan[0].status == Valid && plan[0].claimType == FactClaim
            && plan[0].cited == [] && plan[0].item == None && plan[0].version == None
            && plan[0].text == EmptySectionText(key) != ""
  {
  }

  // ----- the whole plan ----------------------------------------------------

  /** What the first `n` sections of a reply say under one heading. */
  function Returned(reply: seq<ReplySection>, n: nat, key: Key): seq<ClaimOutput>
    requires n <= |reply|
  {
    if n == 0 then []
    else if reply[n - 1].key == key then Returned(reply, n - 1, key) + reply[n - 1].claims
    else Returned(reply, n - 1, key)
  }

  function PlanOf(sections: seq<FactSection>, reply: seq<ReplySection>, key: Key): seq<PlannedClaim>
    requires HasSection(sections, key)
  {
    SectionPlan(sections, key, SectionFacts(sections, key), Returned(reply, |reply|, key))
  }

  /** The plans of the eligible sections, in their order. */
  function SectionPlans(sections: seq<FactSection>, reply: seq<ReplySection>): (plans: seq<seq<PlannedClaim>>)
    requires IsPayload(sections)
    ensures |plans| == |ELIGIBLE|
  {
    seq(|ELIGIBLE|, k requires 0 <= k < |ELIGIBLE| => PlanOf(sections, reply, ELIGIBLE[k]))
  }

  lemma {:induction false} SectionPlanIs(sections: seq<FactSection>, reply: seq<ReplySection>, k: nat)
    requires IsPayload(sections) && k < |ELIGIBLE|
    ensures SectionPlans(sections, reply)[k] == PlanOf(sections, reply, ELIGIBLE[k])
  {
  }

  function Flatten(plans: seq<seq<PlannedClaim>>, n: nat): seq<PlannedClaim>
    requires n <= |plans|
  {
    if n == 0 then [] else Flatten(plans, n - 1) + plans[n - 1]
  }

  /** The claims of the model-eligible sections. */
  function EligiblePlan(sections: seq<FactSection>, reply: seq<ReplySection>): seq<PlannedClaim>
    requires IsPayload(sections)
  {
    Flatten(SectionPlans(sections, reply), |ELIGIBLE|)
  }

  method GroupByHeading(reply: seq<ReplySection>) returns (returned: map<Key, seq<ClaimOutput>>)
    ensures forall key :: key in returned ==> returned[key] == Returned(reply, |reply|, key)
    ensures forall key :: IsEligible(key) && key !in returned ==> Returned(reply, |reply|, key) == []
  {
    returned := map[];
    for i := 0 to |reply|
      invariant forall key :: key in returned ==> IsEligible(key) && returned[key] == Returned(reply, i, key)
      invariant forall key :: IsEligible(key) && key !in returned ==> Returned(reply, i, key) == []
    {
      var key := reply[i].key;
      if IsEligible(key) {
        var before := if key in returned then returned[key] else [];
        returned := returned[key := before + reply[i].claims];
      }
    }
  }

  method PlanReturned(sections: seq<FactSection>, key: Key, claims: seq<ClaimOutput>)
    returns (planned: seq<PlannedClaim>, anyValid: bool)
    ensures planned == ModelClaims(sections, key, claims) && (anyValid <==> AnyValid(planned))
  {
    planned, anyValid := [], false;
    for i := 0 to |claims|
      invariant |planned| == i && forall j :: 0 <= j < i ==> planned[j] == PlanModelClaim(sections, key, claims[j])
      invariant anyValid <==> AnyValid(planned)
    {
      var claim := PlanModelClaim(sections, key, claims[i]);
      AnyValidSnoc(planned, claim);
      planned := planned + [claim];
      anyValid := anyValid || claim.status == Valid;
    }
  }

  method PlanFallbacks(sections: seq<FactSection>, key: Key, facts: seq<Fact>) returns (planned: seq<PlannedClaim>)
    ensures planned == Fallbacks(sections, key, facts)
  {
    planned := [];
    for i := 0 to |facts|
      invariant |planned| == i && forall j :: 0 <= j < i ==> planned[j] == FallbackClaim(sections, key, facts[j])
    {
      planned := planned + [FallbackClaim(sections, key, facts[i])];
    }
  }

  method PlanSection(sections: seq<FactSection>, key: Key, facts: seq<Fact>, claims: seq<ClaimOutput>)
    returns (planned: seq<PlannedClaim>)
    ensures planned == SectionPlan(sections, key, facts, claims)
  {
    if facts == [] {
      return [Placeholder(key)];
    }
    var anyValid;
    planned, anyValid := PlanReturned(sections, key, claims);
    if !anyValid {
      var fallbacks := PlanFallbacks(sections, key, facts);
      planned := planned + fallbacks;
    }
  }

  lemma {:induction false} AnyValidSnoc(planned: seq<PlannedClaim>, claim: PlannedClaim)
    ensures AnyValid(planned + [claim]) <==> AnyValid(planned) || claim.status == Valid
  {
    var all := planned + [claim];
    assert all[|planned|] == claim;
    assert forall i :: 0 <= i < |planned| ==> all[i] == planned[i];
  }

  /** No reply at all (`None`) is planned like an empty one. */
  method PlanModelEligibleSections(sections: seq<FactSection>, composition: Option<seq<ReplySection>>)
    returns (planned: seq<PlannedClaim>)
    requires IsPayload(sections)
    ensures planned == EligiblePlan(sections, if composition.Some? then composition.value else [])
  {
    var reply := if composition.Some? then composition.value else [];
    var returned := GroupByHeading(reply);
    planned := [];
    for k := 0 to |ELIGIBLE|
      invariant planned == Flatten(SectionPlans(sections, reply), k)
    {
      var key := ELIGIBLE[k];
      EligibleKey(k);
      SectionPlanIs(sections, reply, k);
      var claims := if key in returned then returned[key] else [];
      var here := PlanSection(sections, key, SectionFacts(sections, key), claims);
      planned := planned + here;
    }
  }

  lemma {:induction false} EligibleKey(k: nat)
    requires k < |ELIGIBLE|
    ensures IsEligible(ELIGIBLE[k])
  {
  }

  // ----- what a plan guarantees --------------------------------------------

  /** The two sections that never reach the model. */
  function DeterministicPlan(sections: seq<FactSection>): seq<PlannedClaim>
    requires IsPayload(sections)
  {
    [ScopeClaim(SectionFacts(sections, ObjectiveAndScope)[0]), StageClaim(SectionFacts(sections, CurrentStage))]
  }

  function ScopeClaim(scope: Fact): PlannedClaim {
    PlannedClaim(
      ObjectiveAndScope, "Objective: " + scope.title + "." + Suffix(" Scope: ", scope.detail), FactClaim, [scope.id], Valid,
      None, None)
  }

  function StageClaim(stages: seq<Fact>): PlannedClaim {
    if stages != [] then
      PlannedClaim(CurrentStage, "Current stage: " + stages[0].title + ".", FactClaim, [stages[0].id], Valid, None, None)
    else
      PlannedClaim(CurrentStage, "Current stage: Not stated.", FactClaim, [], Valid, None, None)
  }

  lemma {:induction false} StageIsStated(stages: seq<Fact>)
    ensures StageClaim(stages).text == "Current stage: " + (if stages == [] then "Not stated" else stages[0].title) + "."
  {
    assert "Current stage: " + "Not stated" + "." == "Current stage: Not stated.";
  }

  /** All planned claims; a claim's ordinal is its place here. */
  function Plan(sections: seq<FactSection>, reply: seq<ReplySection>): seq<PlannedClaim>
    requires IsPayload(sections)
  {
    DeterministicPlan(sections) + EligiblePlan(sections, reply)
  }

  /** Every brief opens with the project's objective and its current stage, both facts that are always shown. */
  lemma {:induction false} OpensWithObjectiveAndStage(sections: seq<FactSection>, reply: seq<ReplySection>)
    requires IsPayload(sections)
    ensures var plan, scope, stages := Plan(sections, reply), SectionFacts(sections, ObjectiveAndScope)[0], SectionFacts(sections, CurrentStage);
            && |plan| >= 2
            && plan[0].section == ObjectiveAndScope && plan[0].cited == [scope.id] && "Objective: " + scope.title + "." <= plan[0].text
            && plan[1].section == CurrentStage && plan[1].cited == (if stages == [] then [] else [stages[0].id])
            && plan[1].text == "Current stage: " + (if stages == [] then "Not stated" else stages[0].title) + "."
            && forall i :: 0 <= i < 2 ==> plan[i].status == Valid && plan[i].claimType == FactClaim && plan[i].item == plan[i].version == None
  {
    var stages := SectionFacts(sections, CurrentStage);
    StageIsStated(stages);
    assert Plan(sections, reply)[0] == ScopeClaim(SectionFacts(sections, ObjectiveAndScope)[0]);
    assert Plan(sections, reply)[1] == StageClaim(stages);
  }

  // ----- what the dictionaries hold ----------------------------------------

  lemma {:induction false} FactInIsLast(facts: seq<Fact>, n: nat, id: string) returns (j: nat)
    requires n <= |facts| && FactIn(facts, n, id).Some?
    ensures j < n && FactIn(facts, n, id) == Some(facts[j]) && facts[j].id == id
    ensures forall k :: j < k < n ==> facts[k].id != id
  {
    if facts[n - 1].id == id {
      j := n - 1;
    } else {
      j := FactInIsLast(facts, n - 1, id);
    }
  }

  lemma {:induction false} NotInFacts(facts: seq<Fact>, n: nat, id: string)
    requires n <= |facts| && FactIn(facts, n, id).None?
    ensures forall k :: 0 <= k < n ==> facts[k].id != id
  {
    if n > 0 {
      NotInFacts(facts, n - 1, id);
    }
  }

  /** An id names the last fact of the payload that has it. */
  lemma {:induction false} LookupIsLast(sections: seq<FactSection>, n: nat, id: string) returns (i: nat, j: nat)
    requires n <= |sections| && LookupUpTo(sections, n, id).Some?
    ensures i < n && j < |sections[i].facts| && LookupUpTo(sections, n, id) == Some(sections[i].facts[j])
    ensures sections[i].facts[j].id == id && forall k :: j < k < |sections[i].facts| ==> sections[i].facts[k].id != id
    ensures forall h, k :: i < h < n && 0 <= k < |sections[h].facts| ==> sections[h].facts[k].id != id
  {
    var facts := sections[n - 1].facts;
    if FactIn(facts, |facts|, id).Some? {
      i := n - 1;
      j := FactInIsLast(facts, |facts|, id);
    } else {
      i, j := LookupIsLast(sections, n - 1, id);
      NotInFacts(facts, |facts|, id);
    }
  }

  /** A claim is made under a heading exactly when some section of the reply with that heading makes it. */
  lemma {:induction false} ReturnedExactlyWhen(reply: seq<ReplySection>, n: nat, key: Key, claim: ClaimOutput)
    requires n <= |reply|
    ensures claim in Returned(reply, n, key) <==> exists i :: 0 <= i < n && reply[i].key == key && claim in reply[i].claims
  {
    if n > 0 {
      ReturnedExactlyWhen(reply, n - 1, key, claim);
    }
  }

  /** A claim that may be shown as a fact: it cites facts of its own section only, one of them with evidence. */
  predicate IsGrounded(sections: seq<FactSection>, c: PlannedClaim) {
    && (forall id <- c.cited :: Resolves(sections, c.section, id))
    && SomeEvidence(sections, c.cited)
  }

  /** A model claim is valid exactly when it is a suggestion or asks for a fact of its section that has evidence. */
  lemma {:induction false} ModelClaimValidExactlyWhen(sections: seq<FactSection>, key: Key, claim: ClaimOutput)
    requires !IsSelfEvidencing(key)
    ensures PlanModelClaim(sections, key, claim).status == Valid
            <==> claim.claimType == Suggestion
                 || exists id :: id in claim.factIds && Resolves(sections, key, id) && HasEvidence(sections, id)
  {
    ClassifiedExactlyWhen(sections, key, claim.claimType, claim.factIds);
  }

  /**
   * What is stored of a model claim: the facts of its section it asked for, and the ledger item and version of the
   * first of them; when it should cite and asked for none of them, its request as it came, and no ledger item.
   */
  lemma {:induction false} StoredCitations(sections: seq<FactSection>, key: Key, claim: ClaimOutput)
    ensures var c := PlanModelClaim(sections, key, claim);
            && c.section == key && c.text == claim.text && c.claimType == claim.claimType
            && (c.status == InvalidReference ==> c.cited == claim.factIds && c.item == c.version == None)
            && (c.status != InvalidReference ==>
                  (forall id :: id in c.cited <==> id in claim.factIds && Resolves(sections, key, id)))
            && (c.status != InvalidReference && c.cited != [] ==>
                  Lookup(sections, c.cited[0]).Some?
                  && c.item == Lookup(sections, c.cited[0]).value.item
                  && c.version == Lookup(sections, c.cited[0]).value.version)
  {
    var c := PlanModelClaim(sections, key, claim);
    ClassifiedExactlyWhen(sections, key, claim.claimType, claim.factIds);
    if c.status != InvalidReference && c.cited != [] {
      assert c.cited[0] in c.cited;
    }
  }

  lemma {:induction false} ModelClaimIsGrounded(sections: seq<FactSection>, key: Key, claim: ClaimOutput)
    requires !IsSelfEvidencing(key)
    ensures var c := PlanModelClaim(sections, key, claim);
            c.section == key && (c.status == Valid && c.claimType != Suggestion ==> IsGrounded(sections, c))
  {
    ClassifiedExactlyWhen(sections, key, claim.claimType, claim.factIds);
  }

  lemma {:induction false} FallbackIsGrounded(sections: seq<FactSection>, key: Key, fact: Fact)
    requires !IsSelfEvidencing(key)
    ensures var c := FallbackClaim(sections, key, fact);
            c.section == key && (c.status == Valid ==> IsGrounded(sections, c))
  {
    ClassifiedExactlyWhen(sections, key, FactClaim, [fact.id]);
  }

  lemma {:induction false} SectionIsGrounded(
    sections: seq<FactSection>, key: Key, facts: seq<Fact>, claims: seq<ClaimOutput>, i: nat)
    requires !IsSelfEvidencing(key) && facts != [] && i < |SectionPlan(sections, key, facts, claims)|
    ensures var c := SectionPlan(sections, key, facts, claims)[i];
            c.section == key && (c.status == Valid && c.claimType != Suggestion ==> IsGrounded(sections, c))
  {
    SectionPlanAt(sections, key, facts, claims, i);
    if i < |claims| {
      ModelClaimIsGrounded(sections, key, claims[i]);
    } else {
      FallbackIsGrounded(sections, key, facts[i - |claims|]);
    }
  }

  lemma {:induction false} PlannedAt<T>(model: seq<T>, fallbacks: seq<T>, plan: seq<T>, i: nat)
    requires (plan == model || plan == model + fallbacks) && i < |plan|
    ensures i - |model| < |fallbacks| && plan[i] == if i < |model| then model[i] else fallbacks[i - |model|]
  {
  }

  lemma {:induction false} SectionPlanAt(
    sections: seq<FactSection>, key: Key, facts: seq<Fact>, claims: seq<ClaimOutput>, i: nat)
    requires facts != [] && i < |SectionPlan(sections, key, facts, claims)|
    ensures i - |claims| < |facts|
    ensures SectionPlan(sections, key, facts, claims)[i]
            == if i < |claims| then PlanModelClaim(sections, key, claims[i])
               else FallbackClaim(sections, key, facts[i - |claims|])
  {
    PlannedAt(ModelClaims(sections, key, claims), Fallbacks(sections, key, facts), SectionPlan(sections, key, facts, claims), i);
  }

  /** Where each claim of the plan comes from. */
  lemma {:induction false} FlattenContains(plans: seq<seq<PlannedClaim>>, n: nat, i: nat) returns (k: nat, j: nat)
    requires n <= |plans| && i < |Flatten(plans, n)|
    ensures k < n && j < |plans[k]| && i == |Flatten(plans, k)| + j && Flatten(plans, n)[i] == plans[k][j]
  {
    var before := |Flatten(plans, n - 1)|;
    if i < before {
      k, j := FlattenContains(plans, n - 1, i);
    } else {
      k, j := n - 1, i - before;
    }
  }

  lemma {:induction false} FlattenGrows(plans: seq<seq<PlannedClaim>>, m: nat, n: nat)
    requires m <= n <= |plans|
    ensures Flatten(plans, m) <= Flatten(plans, n)
  {
    if m < n {
      FlattenGrows(plans, m, n - 1);
    }
  }

  /** Whatever the model replies, every valid fact or inference in a section with facts is grounded there. */
  lemma {:induction false} ValidClaimsAreGrounded(sections: seq<FactSection>, reply: seq<ReplySection>, i: nat)
    requires IsPayload(sections) && i < |EligiblePlan(sections, reply)|
    ensures var c := EligiblePlan(sections, reply)[i];
            && c.section in ELIGIBLE
            && (SectionFacts(sections, c.section) == [] ==> c == Placeholder(c.section))
            && (SectionFacts(sections, c.section) != [] && c.status == Valid && c.claimType != Suggestion
                ==> IsGrounded(sections, c))
  {
    var k, j := FlattenContains(SectionPlans(sections, reply), |ELIGIBLE|, i);
    SectionPlanIs(sections, reply, k);
    var key := ELIGIBLE[k];
    EligibleKey(k);
    if SectionFacts(sections, key) != [] {
      SectionIsGrounded(sections, key, SectionFacts(sections, key), Returned(reply, |reply|, key), j);
    }
  }

  /** Sections come in their fixed order: a later claim never belongs to an earlier section. */
  lemma {:induction false} SectionsInOrder(sections: seq<FactSection>, reply: seq<ReplySection>, i: nat, j: nat) returns (a: nat, b: nat)
    requires IsPayload(sections) && i <= j < |EligiblePlan(sections, reply)|
    ensures a <= b < |ELIGIBLE|
    ensures EligiblePlan(sections, reply)[i].section == ELIGIBLE[a] && EligiblePlan(sections, reply)[j].section == ELIGIBLE[b]
  {
    var x, y;
    var plans := SectionPlans(sections, reply);
    a, x := FlattenContains(plans, |ELIGIBLE|, i);
    b, y := FlattenContains(plans, |ELIGIBLE|, j);
    SectionPlanIs(sections, reply, a);
    SectionPlanIs(sections, reply, b);
    PlanSections(sections, reply, ELIGIBLE[a], x);
    PlanSections(sections, reply, ELIGIBLE[b], y);
    if b < a {
      FlattenGrows(plans, b + 1, a);
    }
  }

  lemma {:induction false} PlanSections(sections: seq<FactSection>, reply: seq<ReplySection>, key: Key, j: nat)
    requires HasSection(sections, key) && j < |PlanOf(sections, reply, key)|
    ensures PlanOf(sections, reply, key)[j].section == key
  {
    var facts, claims := SectionFacts(sections, key), Returned(reply, |reply|, key);
    if facts != [] && j < |claims| {
      assert PlanOf(sections, reply, key)[j] == PlanModelClaim(sections, key, claims[j]);
    }
  }

  // ----- accepted state does not vanish, unless ----------------------------

  predicate Shows(planned: seq<PlannedClaim>, id: string) {
    exists i :: 0 <= i < |planned| && planned[i].status == Valid && id in planned[i].cited
  }

  /** Fact ids are fresh, and a fact names the section it is in. */
  predicate IsConsistent(sections: seq<FactSection>, key: Key, facts: seq<Fact>) {
    forall i :: 0 <= i < |facts| ==> facts[i].section == key && Lookup(sections, facts[i].id) == Some(facts[i])
  }

  /** The claim written for a fact without the model is valid exactly when the fact has evidence. */
  lemma {:induction false} FallbackValidExactlyWhen(sections: seq<FactSection>, key: Key, facts: seq<Fact>, f: nat)
    requires !IsSelfEvidencing(key) && IsConsistent(sections, key, facts) && f < |facts|
    ensures FallbackClaim(sections, key, facts[f]).status == Valid <==> facts[f].evidence != []
    ensures FallbackClaim(sections, key, facts[f]).cited == [facts[f].id]
    ensures var c, fact := FallbackClaim(sections, key, facts[f]), facts[f];
            && c.section == key && c.claimType == FactClaim && fact.title <= c.text
            && c.item == fact.item && c.version == fact.version
  {
    var id := facts[f].id;
    ClassifiedExactlyWhen(sections, key, FactClaim, [id]);
    assert Resolves(sections, key, id);
    assert Resolved(sections, key, [id], 0) == [] && Resolved(sections, key, [id], 1) == [] + [id];
  }

  /** The claim may be shown: it is a suggestion, or asks for a fact of its section that has evidence. */
  predicate Passes(sections: seq<FactSection>, key: Key, claim: ClaimOutput) {
    claim.claimType == Suggestion || exists id :: id in claim.factIds && Resolves(sections, key, id) && HasEvidence(sections, id)
  }

  predicate AnyPasses(sections: seq<FactSection>, key: Key, claims: seq<ClaimOutput>) {
    exists i :: 0 <= i < |claims| && Passes(sections, key, claims[i])
  }

  predicate CitedByPassing(sections: seq<FactSection>, key: Key, claims: seq<ClaimOutput>, id: string) {
    exists i :: 0 <= i < |claims| && Passes(sections, key, claims[i]) && id in claims[i].factIds
  }

  lemma {:induction false} ClaimPasses(sections: seq<FactSection>, key: Key, claim: ClaimOutput, id: string)
    requires !IsSelfEvidencing(key) && Resolves(sections, key, id)
    ensures PlanModelClaim(sections, key, claim).status == Valid <==> Passes(sections, key, claim)
    ensures Passes(sections, key, claim) ==> (id in PlanModelClaim(sections, key, claim).cited <==> id in claim.factIds)
  {
    ModelClaimValidExactlyWhen(sections, key, claim);
    StoredCitations(sections, key, claim);
  }

  lemma {:induction false} ModelShows(sections: seq<FactSection>, key: Key, claims: seq<ClaimOutput>, id: string)
    requires !IsSelfEvidencing(key) && Resolves(sections, key, id)
    ensures AnyValid(ModelClaims(sections, key, claims)) <==> AnyPasses(sections, key, claims)
    ensures Shows(ModelClaims(sections, key, claims), id) <==> CitedByPassing(sections, key, claims, id)
  {
    var model := ModelClaims(sections, key, claims);
    forall i | 0 <= i < |claims|
      ensures model[i].status == Valid <==> Passes(sections, key, claims[i])
      ensures Passes(sections, key, claims[i]) ==> (id in model[i].cited <==> id in claims[i].factIds)
    {
      ClaimPasses(sections, key, claims[i], id);
    }
  }

  /** When a section's plan shows a fact, told from what the reply says under its heading. */
  predicate Reaches(sections: seq<FactSection>, key: Key, fact: Fact, claims: seq<ClaimOutput>) {
    if AnyPasses(sections, key, claims) then CitedByPassing(sections, key, claims, fact.id) else fact.evidence != []
  }

  /**
   * An accepted fact is shown exactly when some claim that passes asks for it, or no claim of its section passes and
   * it has evidence. So one passing claim hides every fact it and the other passing ones do not ask for.
   */
  lemma {:induction false} FactShownExactlyWhen(
    sections: seq<FactSection>, key: Key, facts: seq<Fact>, claims: seq<ClaimOutput>, f: nat)
    requires !IsSelfEvidencing(key) && IsConsistent(sections, key, facts) && f < |facts|
    ensures Shows(SectionPlan(sections, key, facts, claims), facts[f].id) <==> Reaches(sections, key, facts[f], claims)
  {
    var model := ModelClaims(sections, key, claims);
    assert Resolves(sections, key, facts[f].id);
    ModelShows(sections, key, claims, facts[f].id);
    if !AnyValid(model) {
      if facts[f].evidence != [] {
        FallbackShows(sections, key, facts, f, model);
      } else {
        FallbackHides(sections, key, facts, f, model);
      }
    }
  }

  lemma {:induction false} FallbackHides(
    sections: seq<FactSection>, key: Key, facts: seq<Fact>, f: nat, before: seq<PlannedClaim>)
    requires !IsSelfEvidencing(key) && IsConsistent(sections, key, facts) && f < |facts| && facts[f].evidence == []
    requires !AnyValid(before)
    ensures !Shows(before + Fallbacks(sections, key, facts), facts[f].id)
  {
    var fallbacks := Fallbacks(sections, key, facts);
    forall i | 0 <= i < |facts| ensures !(fallbacks[i].status == Valid && facts[f].id in fallbacks[i].cited) {
      FallbackValidExactlyWhen(sections, key, facts, i);
    }
    ShowsConcat(before, fallbacks, facts[f].id);
  }

  lemma {:induction false} ShowsConcat(a: seq<PlannedClaim>, b: seq<PlannedClaim>, id: string)
    ensures Shows(a + b, id) <==> Shows(a, id) || Shows(b, id)
  {
    if i :| 0 <= i < |a| && a[i].status == Valid && id in a[i].cited {
      assert (a + b)[i] == a[i];
    }
    if i :| 0 <= i < |b| && b[i].status == Valid && id in b[i].cited {
      assert (a + b)[|a| + i] == b[i];
    }
    if i :| 0 <= i < |a + b| && (a + b)[i].status == Valid && id in (a + b)[i].cited {
      assert i < |a| ==> a[i] == (a + b)[i];
      assert i >= |a| ==> b[i - |a|] == (a + b)[i];
    }
  }

  lemma {:induction false} FallbackShows(
    sections: seq<FactSection>, key: Key, facts: seq<Fact>, f: nat, before: seq<PlannedClaim>)
    requires !IsSelfEvidencing(key) && IsConsistent(sections, key, facts) && f < |facts| && facts[f].evidence != []
    ensures Shows(before + Fallbacks(sections, key, facts), facts[f].id)
  {
    FallbackValidExactlyWhen(sections, key, facts, f);
    assert Fallbacks(sections, key, facts)[f].status == Valid && facts[f].id in Fallbacks(sections, key, facts)[f].cited;
    ShowsConcat(before, Fallbacks(sections, key, facts), facts[f].id);
  }

  /** One valid claim of any kind, even a suggestion that cites nothing, keeps every fact of its section out. */
  lemma {:induction false} SuggestionHidesFacts(sections: seq<FactSection>, key: Key, facts: seq<Fact>, text: string, id: string)
    requires facts != []
    ensures !Shows(SectionPlan(sections, key, facts, [ClaimOutput(text, Suggestion, [])]), id)
  {
    var claims := [ClaimOutput(text, Suggestion, [])];
    var model := ModelClaims(sections, key, claims);
    assert Resolved(sections, key, [], 0) == [];
    assert model[0].status == Valid && model[0].cited == [];
    assert AnyValid(model);
  }

  // ----- the reply's shape does not matter ---------------------------------

  /** The plan depends only on what the reply says under each eligible heading. */
  lemma {:induction false} PlanDependsOnHeadings(sections: seq<FactSection>, a: seq<ReplySection>, b: seq<ReplySection>)
    requires IsPayload(sections)
    requires forall k :: 0 <= k < |ELIGIBLE| ==> Returned(a, |a|, ELIGIBLE[k]) == Returned(b, |b|, ELIGIBLE[k])
    ensures Plan(sections, a) == Plan(sections, b)
  {
    forall k | 0 <= k < |ELIGIBLE| ensures SectionPlans(sections, a)[k] == SectionPlans(sections, b)[k] {
      SectionPlanIs(sections, a, k);
      SectionPlanIs(sections, b, k);
    }
    assert SectionPlans(sections, a) == SectionPlans(sections, b);
  }

  predicate DistinctKeys(reply: seq<ReplySection>) {
    forall i, j :: 0 <= i < j < |reply| ==> reply[i].key != reply[j].key
  }

  /** With distinct headings, a heading's claims are those of its one section. */
  lemma {:induction false} ReturnedOnce(reply: seq<ReplySection>, n: nat, at: nat)
    requires DistinctKeys(reply) && n <= |reply| && at < |reply|
    ensures Returned(reply, n, reply[at].key) == if at < n then reply[at].claims else []
  {
    if n > 0 {
      ReturnedOnce(reply, n - 1, at);
    }
  }

  lemma {:induction false} ReturnedNever(reply: seq<ReplySection>, n: nat, key: Key)
    requires n <= |reply| && forall i :: 0 <= i < |reply| ==> reply[i].key != key
    ensures Returned(reply, n, key) == []
  {
    if n > 0 {
      ReturnedNever(reply, n - 1, key);
    }
  }

  lemma {:induction false} ReorderingKeepsHeading(a: seq<ReplySection>, b: seq<ReplySection>, key: Key)
    requires DistinctKeys(a) && DistinctKeys(b) && multiset(a) == multiset(b)
    ensures Returned(a, |a|, key) == Returned(b, |b|, key)
  {
    if i :| 0 <= i < |a| && a[i].key == key {
      assert a[i] in multiset(b);
      var j :| 0 <= j < |b| && b[j] == a[i];
      ReturnedOnce(a, |a|, i);
      ReturnedOnce(b, |b|, j);
    } else {
      forall j | 0 <= j < |b| ensures b[j].key != key {
        assert b[j] in multiset(a);
      }
      ReturnedNever(a, |a|, key);
      ReturnedNever(b, |b|, key);
    }
  }

  /** Reordering the sections of a reply with distinct headings changes nothing. */
  lemma {:induction false} ReorderingChangesNothing(sections: seq<FactSection>, a: seq<ReplySection>, b: seq<ReplySection>)
    requires IsPayload(sections) && DistinctKeys(a) && DistinctKeys(b) && multiset(a) == multiset(b)
    ensures Plan(sections, a) == Plan(sections, b)
  {
    forall k | 0 <= k < |ELIGIBLE| ensures Returned(a, |a|, ELIGIBLE[k]) == Returned(b, |b|, ELIGIBLE[k]) {
      ReorderingKeepsHeading(a, b, ELIGIBLE[k]);
    }
    PlanDependsOnHeadings(sections, a, b);
  }

  /** A section under a heading that is not eligible is ignored, wherever it stands. */
  lemma {:induction false} IneligibleIgnored(sections: seq<FactSection>, a: seq<ReplySection>, s: ReplySection, b: seq<ReplySection>)
    requires IsPayload(sections) && !IsEligible(s.key)
    ensures Plan(sections, a + [s] + b) == Plan(sections, a + b)
  {
    forall k | 0 <= k < |ELIGIBLE|
      ensures Returned(a + [s] + b, |a + [s] + b|, ELIGIBLE[k]) == Returned(a + b, |a + b|, ELIGIBLE[k])
    {
      EligibleKey(k);
      ReturnedWithout(a, s, b, |b|, ELIGIBLE[k]);
    }
    PlanDependsOnHeadings(sections, a + [s] + b, a + b);
  }

  lemma {:induction false} ReturnedWithout(a: seq<ReplySection>, s: ReplySection, b: seq<ReplySection>, n: nat, key: Key)
    requires s.key != key && n <= |b|
    ensures Returned(a + [s] + b, |a| + 1 + n, key) == Returned(a + b, |a| + n, key)
  {
    if n > 0 {
      ReturnedWithout(a, s, b, n - 1, key);
    } else {
      ReturnedPrefix(a, [s] + b, |a|, key);
      ReturnedPrefix(a, b, |a|, key);
      assert a + ([s] + b) == a + [s] + b;
    }
  }

  lemma {:induction false} ReturnedPrefix(a: seq<ReplySection>, b: seq<ReplySection>, n: nat, key: Key)
    requires n <= |a|
    ensures Returned(a + b, n, key) == Returned(a, n, key)
  {
    if n > 0 {
      ReturnedPrefix(a, b, n - 1, key);
    }
  }
}
