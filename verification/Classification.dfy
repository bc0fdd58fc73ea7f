/** What an observation does to the ledger. */
module Classification {
  import opened Text
  import opened Ledger
  import opened Matching
  import Normalization

  const SUPERSEDABLE_KINDS := {Decision, Milestone, Commitment, OpenQuestion}

  datatype Action = CREATE | NO_OP | ADD_EVIDENCE | UPDATE | COMPLETE | CANCEL | SUPERSEDE | CONFLICT

  datatype Escalation =
    | AmbiguousOwnerReason | UpdateWithoutTarget | WithinScoreMargin | BelowStrongThreshold | WeakCandidateMatch
    | CorrectedFieldDisagreement | MaterialReversal | KindChangeRequiresSupersession | CompletionReason
    | InferredNotExplicit | CancellationReason | SupersessionReason | ChangedDueDate | DateChangedSilently
    | ChangedOwner | OwnerChangedSilently | MultipleFieldsChanged | UnclassifiedRelationship

  datatype Patch =
    | NoPatch
    | NewItemPatch(kind: Kind, title: string, description: string, owner: Option<string>,
                   dueDate: Option<string>, dueDateText: Option<string>, supersedes: Option<string>)
    | StatusPatch(status: Status)
    | DatePatch(dueDate: Option<string>, dueDateText: Option<string>)
    | OwnerPatch(owner: Option<string>)

  datatype Proposal = Proposal(
    action: Action, target: Option<string>, patch: Patch, escalations: seq<Escalation>,
    explicitLanguage: bool, domainValid: bool)

  /** `NewItemPatch` asserts that the observation is not an update; the assertion failing is a crash. */
  datatype Result = Proposed(proposal: Proposal) | AssertionFailed

  function IsoOf(date: NormalizedDate): Option<string> {
    if date.value.None? then None else Some(date.value.value.iso)
  }

  function CreatePatch(o: Observation, supersedes: Option<string>): Patch
    requires NaturalKind(o.kind).Some?
  {
    NewItemPatch(NaturalKind(o.kind).value, o.subject, o.statement,
                 if o.owner.outcome == ResolvedOwner then o.owner.personId else None,
                 IsoOf(o.date), o.date.originalText, supersedes)
  }

  predicate IsDomainValid(kind: Kind, from: Status, to: Status, t: Transition) {
    ValidateTransition(kind, Some(from), to, t) == Legal
  }

  // ----- the decision as a table of rules ----------------------------------

  datatype Rule =
    | NoTarget | NewItem | TooClose | Reversal | KindChange | SameProposition | Completion | Cancellation
    | Supersession | DateUpdate | DateSilent | OwnerUpdate | OwnerSilent | TreatAsNew | Unclear

  predicate TooCloseToCall(m: MatchOutcome, th: Thresholds)
    requires m.top.Some?
  {
    m.margin.Some? && m.margin.value < th.strongMargin && m.top.value.score >= th.reviewScore
  }

  predicate KindChanges(o: Observation, item: LedgerItem) {
    NaturalKind(o.kind).Some? && NaturalKind(o.kind).value != item.kind
  }

  predicate IsReversal(o: Observation, item: LedgerItem) {
    item.status in TERMINAL_STATUSES
    && (o.signals.completion || o.signals.cancellation || o.signals.supersession
        || (KindChanges(o, item) && o.signals.blocking)
        || DateConflict(o.date, item.due) || OwnerConflict(o.owner, item.owner))
  }

  predicate IsSameProposition(o: Observation, top: ScoredCandidate, th: Thresholds) {
    && top.features.subject >= th.sameProposition
    && !o.signals.completion && !o.signals.cancellation && !o.signals.dateChange && !o.signals.ownerAssignment
    && !o.signals.supersession
    && !DateConflict(o.date, top.item.due) && !OwnerConflict(o.owner, top.item.owner)
  }

  /** The first rule that applies, in the order the source tries them. */
  function RuleFor(o: Observation, m: MatchOutcome, th: Thresholds): Rule {
    if m.tier == NoMatch || m.top.None? then (if o.kind == UpdateKind then NoTarget else NewItem)
    else if TooCloseToCall(m, th) then TooClose
    else
      var item := m.top.value.item;
      var dateChanged, ownerChanged := DateConflict(o.date, item.due), OwnerConflict(o.owner, item.owner);
      if IsReversal(o, item) then Reversal
      else if KindChanges(o, item) && (o.signals.blocking || o.signals.supersession) then KindChange
      else if IsSameProposition(o, m.top.value, th) then SameProposition
      else if o.signals.completion then Completion
      else if o.signals.cancellation then Cancellation
      else if o.signals.supersession && item.kind in SUPERSEDABLE_KINDS then Supersession
      else if dateChanged && !ownerChanged then (if o.signals.dateChange then DateUpdate else DateSilent)
      else if ownerChanged && !dateChanged then (if o.signals.ownerAssignment then OwnerUpdate else OwnerSilent)
      else if m.tier == Uncertain && o.kind != UpdateKind then TreatAsNew
      else Unclear
  }

  /** The escalations every rule inherits from the match. */
  function MatchEscalations(o: Observation, m: MatchOutcome, th: Thresholds): seq<Escalation> {
    (if o.owner.outcome == AmbiguousOwner then [AmbiguousOwnerReason] else [])
    + if m.tier == NoMatch || m.top.None? || TooCloseToCall(m, th) then []
      else
        (match m.tier case Review => [BelowStrongThreshold] case Uncertain => [WeakCandidateMatch] case _ => [])
        + if m.top.value.features.corrected != 0.0 then [CorrectedFieldDisagreement] else []
  }

  function RuleEscalations(rule: Rule, o: Observation, both: bool): seq<Escalation> {
    match rule
    case NoTarget => [UpdateWithoutTarget]
    case NewItem => []
    case TooClose => [WithinScoreMargin]
    case Reversal => [MaterialReversal]
    case KindChange => [KindChangeRequiresSupersession]
    case SameProposition => []
    case Completion => [CompletionReason] + if o.isExplicit then [] else [InferredNotExplicit]
    case Cancellation => [CancellationReason]
    case Supersession => [SupersessionReason]
    case DateUpdate => [ChangedDueDate]
    case DateSilent => [DateChangedSilently]
    case OwnerUpdate => [ChangedOwner]
    case OwnerSilent => [OwnerChangedSilently]
    case TreatAsNew => [if both then MultipleFieldsChanged else UnclassifiedRelationship]
    case Unclear => [if both then MultipleFieldsChanged else UnclassifiedRelationship]
  }

  /** The rule's proposal about an existing item, before escalations are added. */
  function ItemProposal(rule: Rule, o: Observation, item: LedgerItem, hasEvidence: bool): Result {
    var on := Some(item.id);
    var superseding := IsDomainValid(item.kind, item.status, Superseded, Supersede);
    var updating := IsDomainValid(item.kind, item.status, item.status, Update);
    match rule
    case Reversal => Proposed(Proposal(CONFLICT, on, NoPatch, [], true, false))
    case KindChange =>
      if NaturalKind(o.kind).None? then AssertionFailed
      else Proposed(Proposal(SUPERSEDE, on, CreatePatch(o, on), [], true, superseding))
    case SameProposition =>
      Proposed(Proposal(if hasEvidence then NO_OP else ADD_EVIDENCE, on, NoPatch, [], false, true))
    case Completion =>
      Proposed(Proposal(COMPLETE, on, StatusPatch(Completed), [], true,
                        IsDomainValid(item.kind, item.status, Completed, Complete)))
    case Cancellation =>
      Proposed(Proposal(CANCEL, on, StatusPatch(Canceled), [], true,
                        IsDomainValid(item.kind, item.status, Canceled, Cancel)))
    case Supersession =>
      if NaturalKind(o.kind).None? then AssertionFailed
      else Proposed(Proposal(SUPERSEDE, on, CreatePatch(o, on), [], true, superseding))
    case DateUpdate =>
      Proposed(Proposal(UPDATE, on, DatePatch(IsoOf(o.date), o.date.originalText), [], true, updating))
    case OwnerUpdate => Proposed(Proposal(UPDATE, on, OwnerPatch(o.owner.personId), [], true, updating))
    case _ => Proposed(Proposal(CONFLICT, on, NoPatch, [], false, false))
  }

  /** The classification as one rule, its proposal and its escalations. */
  function Classified(o: Observation, m: MatchOutcome, hasEvidence: bool, th: Thresholds): Result {
    var rule := RuleFor(o, m, th);
    var both := m.top.Some? && DateConflict(o.date, m.top.value.item.due) && OwnerConflict(o.owner, m.top.value.item.owner);
    var reasons := MatchEscalations(o, m, th) + RuleEscalations(rule, o, both);
    match rule
    case NewItem => Proposed(Proposal(CREATE, None, CreatePatch(o, None), reasons, false, true))
    case NoTarget => Proposed(Proposal(CONFLICT, None, NoPatch, reasons, false, true))
    case TooClose => Proposed(Proposal(CONFLICT, None, NoPatch, reasons, false, true))
    case TreatAsNew => Proposed(Proposal(CREATE, None, CreatePatch(o, None), reasons, false, true))
    case _ =>
      match ItemProposal(rule, o, m.top.value.item, hasEvidence)
      case AssertionFailed => AssertionFailed
      case Proposed(p) => Proposed(p.(escalations := reasons))
  }

  // ----- the decision as the source computes it ----------------------------

  method ClassifyAction(o: Observation, m: MatchOutcome, hasEvidence: bool, th: Thresholds) returns (r: Result)
    ensures r == Classified(o, m, hasEvidence, th)
  {
    var escalations: seq<Escalation> := [];
    if o.owner.outcome == AmbiguousOwner {
      escalations := escalations + [AmbiguousOwnerReason];
    }

    if m.tier == NoMatch || m.top.None? {
      if o.kind == UpdateKind {
        escalations := escalations + [UpdateWithoutTarget];
        return Proposed(Proposal(CONFLICT, None, NoPatch, escalations, false, true));
      }
      return Proposed(Proposal(CREATE, None, CreatePatch(o, None), escalations, false, true));
    }

    if m.margin.Some? && m.margin.value < th.strongMargin && m.top.value.score >= th.reviewScore {
      escalations := escalations + [WithinScoreMargin];
      return Proposed(Proposal(CONFLICT, None, NoPatch, escalations, false, true));
    }

    if m.tier == Review {
      escalations := escalations + [BelowStrongThreshold];
    } else if m.tier == Uncertain {
      escalations := escalations + [WeakCandidateMatch];
    }
    if m.top.value.features.corrected != 0.0 {
      escalations := escalations + [CorrectedFieldDisagreement];
    }
    assert escalations == MatchEscalations(o, m, th);
    r := ClassifyAgainstItem(o, m, hasEvidence, th, escalations);
  }

  method ClassifyAgainstItem(o: Observation, m: MatchOutcome, hasEvidence: bool, th: Thresholds, inherited: seq<Escalation>)
    returns (r: Result)
    requires m.tier != NoMatch && m.top.Some? && !TooCloseToCall(m, th) && inherited == MatchEscalations(o, m, th)
    ensures r == Classified(o, m, hasEvidence, th)
  {
    var top := m.top.value;
    var item := top.item;
    var on := Some(item.id);
    var s := o.signals;
    var escalations := inherited;
    var dateChanged := DateConflict(o.date, item.due);
    var ownerChanged := OwnerConflict(o.owner, item.owner);
    var kindChange := KindChanges(o, item);

    if item.status in TERMINAL_STATUSES
       && (s.completion || s.cancellation || s.supersession || (kindChange && s.blocking) || dateChanged || ownerChanged) {
      return Proposed(Proposal(CONFLICT, on, NoPatch, escalations + [MaterialReversal], true, false));
    }
    if kindChange && (s.blocking || s.supersession) {
      var valid := IsDomainValid(item.kind, item.status, Superseded, Supersede);
      return Proposed(Proposal(SUPERSEDE, on, CreatePatch(o, on), escalations + [KindChangeRequiresSupersession], true, valid));
    }
    if top.features.subject >= th.sameProposition && !s.completion && !s.cancellation && !s.dateChange
       && !s.ownerAssignment && !s.supersession && !dateChanged && !ownerChanged {
      return Proposed(Proposal(if hasEvidence then NO_OP else ADD_EVIDENCE, on, NoPatch, escalations, false, true));
    }
    if s.completion {
      escalations := escalations + [CompletionReason];
      if !o.isExplicit {
        escalations := escalations + [InferredNotExplicit];
      }
      var valid := IsDomainValid(item.kind, item.status, Completed, Complete);
      return Proposed(Proposal(COMPLETE, on, StatusPatch(Completed), escalations, true, valid));
    }
    if s.cancellation {
      var valid := IsDomainValid(item.kind, item.status, Canceled, Cancel);
      return Proposed(Proposal(CANCEL, on, StatusPatch(Canceled), escalations + [CancellationReason], true, valid));
    }
    if s.supersession && item.kind in SUPERSEDABLE_KINDS {
      if NaturalKind(o.kind).None? {
        return AssertionFailed;
      }
      var valid := IsDomainValid(item.kind, item.status, Superseded, Supersede);
      return Proposed(Proposal(SUPERSEDE, on, CreatePatch(o, on), escalations + [SupersessionReason], true, valid));
    }
    r := ClassifyFieldChange(o, m, hasEvidence, th, escalations);
  }

  /** The rules left when nothing else applies: a changed date, a changed owner, both, or neither. */
  method ClassifyFieldChange(o: Observation, m: MatchOutcome, hasEvidence: bool, th: Thresholds, inherited: seq<Escalation>)
    returns (r: Result)
    requires m.top.Some? && inherited == MatchEscalations(o, m, th)
    requires RuleFor(o, m, th) in {DateUpdate, DateSilent, OwnerUpdate, OwnerSilent, TreatAsNew, Unclear}
    ensures r == Classified(o, m, hasEvidence, th)
  {
    var item := m.top.value.item;
    var on := Some(item.id);
    var s := o.signals;
    var escalations := inherited;
    var dateChanged := DateConflict(o.date, item.due);
    var ownerChanged := OwnerConflict(o.owner, item.owner);

    if dateChanged && !ownerChanged {
      if s.dateChange {
        var valid := IsDomainValid(item.kind, item.status, item.status, Update);
        return Proposed(Proposal(UPDATE, on, DatePatch(IsoOf(o.date), o.date.originalText),
                                 escalations + [ChangedDueDate], true, valid));
      }
      return Proposed(Proposal(CONFLICT, on, NoPatch, escalations + [DateChangedSilently], false, false));
    }
    if ownerChanged && !dateChanged {
      if s.ownerAssignment {
        var valid := IsDomainValid(item.kind, item.status, item.status, Update);
        return Proposed(Proposal(UPDATE, on, OwnerPatch(o.owner.personId), escalations + [ChangedOwner], true, valid));
      }
      return Proposed(Proposal(CONFLICT, on, NoPatch, escalations + [OwnerChangedSilently], false, false));
    }
    if dateChanged && ownerChanged {
      escalations := escalations + [MultipleFieldsChanged];
    } else {
      escalations := escalations + [UnclassifiedRelationship];
    }
    if m.tier == Uncertain && o.kind != UpdateKind {
      return Proposed(Proposal(CREATE, None, CreatePatch(o, None), escalations, false, true));
    }
    return Proposed(Proposal(CONFLICT, on, NoPatch, escalations, false, false));
  }

  // ----- when each action is proposed, told from the observation, the match and the signals ---------

  /** There is a best match, and no other one scores so close to a good one that the two cannot be told apart. */
  predicate IsClear(m: MatchOutcome, th: Thresholds) {
    && m.tier != NoMatch && m.top.Some?
    && !(m.margin.Some? && m.margin.value < th.strongMargin && m.top.value.score >= th.reviewScore)
  }

  predicate IsLive(item: LedgerItem) {
    item.status !in TERMINAL_STATUSES
  }

  predicate StatesOtherDate(o: Observation, item: LedgerItem) {
    o.date.value.Some? && item.due.Some? && o.date.value.value.iso != item.due.value.text
  }

  predicate StatesOtherOwner(o: Observation, item: LedgerItem) {
    o.owner.outcome == ResolvedOwner && o.owner.personId.Some? && item.owner.Some? && o.owner.personId != item.owner
  }

  /** Blocking or supersession language in an observation whose own kind is not the item's. */
  predicate AsksOtherKind(o: Observation, item: LedgerItem) {
    (o.signals.blocking || o.signals.supersession) && NaturalKind(o.kind).Some? && NaturalKind(o.kind) != Some(item.kind)
  }

  predicate AsksReplacement(o: Observation, item: LedgerItem) {
    o.signals.supersession && item.kind in {Decision, Milestone, Commitment, OpenQuestion}
  }

  /** No language that completes, cancels or replaces the item. */
  predicate KeepsItem(o: Observation, item: LedgerItem) {
    !o.signals.completion && !o.signals.cancellation && !AsksOtherKind(o, item) && !AsksReplacement(o, item)
  }

  /** Much the same words, and nothing that changes or ends the item. */
  predicate Repeats(o: Observation, top: ScoredCandidate, th: Thresholds) {
    && top.features.subject >= th.sameProposition
    && !o.signals.completion && !o.signals.cancellation && !o.signals.supersession
    && !o.signals.dateChange && !o.signals.ownerAssignment
    && !AsksOtherKind(o, top.item) && !StatesOtherDate(o, top.item) && !StatesOtherOwner(o, top.item)
  }

  /** A completion is proposed exactly when a live, clear match meets completion language and no change of kind. */
  lemma {:induction false} CompletesExactlyWhen(o: Observation, m: MatchOutcome, hasEvidence: bool, th: Thresholds)
    requires Classified(o, m, hasEvidence, th).Proposed?
    ensures var p := Classified(o, m, hasEvidence, th).proposal;
            && (p.action == COMPLETE <==>
                  IsClear(m, th) && IsLive(m.top.value.item) && o.signals.completion && !AsksOtherKind(o, m.top.value.item))
            && (p.action == COMPLETE <==> p.patch == StatusPatch(Completed))
  {
  }

  lemma {:induction false} CancelsExactlyWhen(o: Observation, m: MatchOutcome, hasEvidence: bool, th: Thresholds)
    requires Classified(o, m, hasEvidence, th).Proposed?
    ensures var p := Classified(o, m, hasEvidence, th).proposal;
            && (p.action == CANCEL <==>
                  && IsClear(m, th) && IsLive(m.top.value.item)
                  && o.signals.cancellation && !o.signals.completion && !AsksOtherKind(o, m.top.value.item))
            && (p.action == CANCEL <==> p.patch == StatusPatch(Canceled))
  {
  }

  /**
   * A supersession is proposed exactly when a live, clear match meets language that asks for another kind, or one of a
   * replaceable kind meets supersession language and neither completion nor cancellation.
   */
  lemma {:induction false} SupersedesExactlyWhen(o: Observation, m: MatchOutcome, hasEvidence: bool, th: Thresholds)
    requires Classified(o, m, hasEvidence, th).Proposed?
    ensures Classified(o, m, hasEvidence, th).proposal.action == SUPERSEDE <==>
              && IsClear(m, th) && IsLive(m.top.value.item)
              && (AsksOtherKind(o, m.top.value.item)
                  || (AsksReplacement(o, m.top.value.item) && !o.signals.completion && !o.signals.cancellation))
  {
  }

  /**
   * A new due date is proposed exactly when a live, clear match meets date-change language, only its date differs, and
   * nothing completes, cancels or replaces it; the date is the one the observation states.
   */
  lemma {:induction false} DateChangesExactlyWhen(o: Observation, m: MatchOutcome, hasEvidence: bool, th: Thresholds)
    requires Classified(o, m, hasEvidence, th).Proposed?
    ensures var p := Classified(o, m, hasEvidence, th).proposal;
            && (p.patch.DatePatch? <==>
                  && IsClear(m, th) && IsLive(m.top.value.item) && KeepsItem(o, m.top.value.item)
                  && StatesOtherDate(o, m.top.value.item) && !StatesOtherOwner(o, m.top.value.item)
                  && o.signals.dateChange)
            && (p.patch.DatePatch? ==>
                  p.action == UPDATE && p.patch == DatePatch(Some(o.date.value.value.iso), o.date.originalText))
  {
  }

  lemma {:induction false} OwnerChangesExactlyWhen(o: Observation, m: MatchOutcome, hasEvidence: bool, th: Thresholds)
    requires Classified(o, m, hasEvidence, th).Proposed?
    ensures var p := Classified(o, m, hasEvidence, th).proposal;
            && (p.patch.OwnerPatch? <==>
                  && IsClear(m, th) && IsLive(m.top.value.item) && KeepsItem(o, m.top.value.item)
                  && StatesOtherOwner(o, m.top.value.item) && !StatesOtherDate(o, m.top.value.item)
                  && o.signals.ownerAssignment)
            && (p.patch.OwnerPatch? ==> p.action == UPDATE && p.patch == OwnerPatch(o.owner.personId))
            && (p.action == UPDATE <==> p.patch.OwnerPatch? || p.patch.DatePatch?)
  {
  }

  /** A repetition is proposed exactly when a clear match repeats; whether it adds evidence is all that tells the two apart. */
  lemma {:induction false} RepeatsExactlyWhen(o: Observation, m: MatchOutcome, hasEvidence: bool, th: Thresholds)
    requires Classified(o, m, hasEvidence, th).Proposed?
    ensures var p := Classified(o, m, hasEvidence, th).proposal;
            && (p.action == NO_OP <==> IsClear(m, th) && Repeats(o, m.top.value, th) && hasEvidence)
            && (p.action == ADD_EVIDENCE <==> IsClear(m, th) && Repeats(o, m.top.value, th) && !hasEvidence)
  {
  }

  /**
   * A new item is proposed exactly when the observation is no update and there is no match, or the clear match is an
   * uncertain one and nothing ties the observation to it: it neither repeats nor ends the item, states no change of
   * its date alone or of its owner alone, and none of either on a closed item.
   */
  lemma {:induction false} CreatesExactlyWhen(o: Observation, m: MatchOutcome, hasEvidence: bool, th: Thresholds)
    requires Classified(o, m, hasEvidence, th).Proposed?
    ensures Classified(o, m, hasEvidence, th).proposal.action == CREATE <==>
              && o.kind != UpdateKind
              && (m.tier == NoMatch || m.top.None? ||
                  (&& IsClear(m, th) && m.tier == Uncertain
                   && KeepsItem(o, m.top.value.item) && !Repeats(o, m.top.value, th)
                   && (StatesOtherDate(o, m.top.value.item) <==> StatesOtherOwner(o, m.top.value.item))
                   && (IsLive(m.top.value.item) || !(o.signals.supersession || StatesOtherDate(o, m.top.value.item)))))
  {
    UnescalatedRules(o, m, hasEvidence, th);
    if m.tier != NoMatch && m.top.Some? {
      TreatsAsNewExactlyWhen(o, m, th);
    }
  }

  lemma {:induction false} TreatsAsNewExactlyWhen(o: Observation, m: MatchOutcome, th: Thresholds)
    requires m.tier != NoMatch && m.top.Some?
    ensures RuleFor(o, m, th) == TreatAsNew <==>
              && o.kind != UpdateKind && IsClear(m, th) && m.tier == Uncertain
              && KeepsItem(o, m.top.value.item) && !Repeats(o, m.top.value, th)
              && (StatesOtherDate(o, m.top.value.item) <==> StatesOtherOwner(o, m.top.value.item))
              && (IsLive(m.top.value.item) || !(o.signals.supersession || StatesOtherDate(o, m.top.value.item)))
  {
  }

  /**
   * A proposal rests on explicit language when it changes or ends an item, or conflicts with a closed one; it is
   * invalid in the ledger only if it does either, or conflicts with a clear match.
   */
  lemma {:induction false} FlagsExactlyWhen(o: Observation, m: MatchOutcome, hasEvidence: bool, th: Thresholds)
    requires Classified(o, m, hasEvidence, th).Proposed?
    ensures var p := Classified(o, m, hasEvidence, th).proposal;
            && (p.explicitLanguage <==>
                  p.action in {COMPLETE, CANCEL, SUPERSEDE, UPDATE} || RuleFor(o, m, th) == Reversal)
            && (p.action in {CREATE, NO_OP, ADD_EVIDENCE} ==> p.domainValid)
            && (p.action == CONFLICT ==> (p.domainValid <==> !IsClear(m, th)))
  {
  }

  /** What an item of a kind is observed as. */
  function ObservedAs(kind: Kind): ObservationKind {
    match kind
    case Decision => DecisionKind
    case Commitment => CommitmentKind
    case Milestone => MilestoneKind
    case Risk => RiskKind
    case Blocker => BlockerKind
    case OpenQuestion => OpenQuestionKind
    case Stakeholder => StakeholderKind
  }

  /** What a new item carries is what the observation says. */
  lemma {:induction false} NewItemsCarry(o: Observation, m: MatchOutcome, hasEvidence: bool, th: Thresholds)
    requires Classified(o, m, hasEvidence, th).Proposed?
    ensures var p := Classified(o, m, hasEvidence, th).proposal;
            p.patch.NewItemPatch? ==>
              && o.kind == ObservedAs(p.patch.kind) && p.patch.title == o.subject && p.patch.description == o.statement
              && p.patch.owner == (if o.owner.outcome == ResolvedOwner then o.owner.personId else None)
              && (o.date.value.Some? ==> p.patch.dueDate == Some(o.date.value.value.iso))
              && (o.date.value.None? ==> p.patch.dueDate == None)
              && p.patch.dueDateText == o.date.originalText
  {
    var p := Classified(o, m, hasEvidence, th).proposal;
    if p.patch.NewItemPatch? {
      NewItemIsCreated(o, m, hasEvidence, th);
      KindIsObserved(o.kind);
    }
  }

  lemma {:induction false} NewItemIsCreated(o: Observation, m: MatchOutcome, hasEvidence: bool, th: Thresholds)
    requires Classified(o, m, hasEvidence, th).Proposed? && Classified(o, m, hasEvidence, th).proposal.patch.NewItemPatch?
    ensures var patch := Classified(o, m, hasEvidence, th).proposal.patch;
            NaturalKind(o.kind).Some? && patch == CreatePatch(o, patch.supersedes)
  {
  }

  lemma {:induction false} KindIsObserved(kind: ObservationKind)
    ensures NaturalKind(kind).Some? ==> ObservedAs(NaturalKind(kind).value) == kind
    ensures NaturalKind(kind).None? <==> kind == UpdateKind
  {
  }

  lemma {:induction false} InConcat<T>(a: seq<T>, b: seq<T>, x: T)
    ensures x in a + b <==> x in a || x in b
  {
  }

  /** The reasons a proposal inherits from its match. */
  predicate Inherits(o: Observation, m: MatchOutcome, th: Thresholds, e: Escalation) {
    || (e == AmbiguousOwnerReason && o.owner.outcome == AmbiguousOwner)
    || (e == BelowStrongThreshold && IsClear(m, th) && m.tier == Review)
    || (e == WeakCandidateMatch && IsClear(m, th) && m.tier == Uncertain)
    || (e == CorrectedFieldDisagreement && IsClear(m, th) && m.top.value.features.corrected != 0.0)
  }

  lemma {:induction false} InheritedReasons(o: Observation, m: MatchOutcome, th: Thresholds, e: Escalation)
    ensures e in MatchEscalations(o, m, th) <==> Inherits(o, m, th, e)
  {
  }

  /** Each rule gives its own reason; a completion that is only inferred gives a second one. */
  predicate Gives(rule: Rule, isExplicit: bool, both: bool, e: Escalation) {
    match e
    case UpdateWithoutTarget => rule == NoTarget
    case WithinScoreMargin => rule == TooClose
    case MaterialReversal => rule == Reversal
    case KindChangeRequiresSupersession => rule == KindChange
    case CompletionReason => rule == Completion
    case InferredNotExplicit => rule == Completion && !isExplicit
    case CancellationReason => rule == Cancellation
    case SupersessionReason => rule == Supersession
    case ChangedDueDate => rule == DateUpdate
    case DateChangedSilently => rule == DateSilent
    case ChangedOwner => rule == OwnerUpdate
    case OwnerChangedSilently => rule == OwnerSilent
    case MultipleFieldsChanged => rule in {TreatAsNew, Unclear} && both
    case UnclassifiedRelationship => rule in {TreatAsNew, Unclear} && !both
    case _ => false
  }

  lemma {:induction false} OwnReasons(rule: Rule, o: Observation, both: bool, e: Escalation)
    ensures e in RuleEscalations(rule, o, both) <==> Gives(rule, o.isExplicit, both, e)
  {
  }

  lemma {:induction false} EscalationsOf(o: Observation, m: MatchOutcome, hasEvidence: bool, th: Thresholds)
    requires Classified(o, m, hasEvidence, th).Proposed?
    ensures var both := m.top.Some? && StatesOtherDate(o, m.top.value.item) && StatesOtherOwner(o, m.top.value.item);
            Classified(o, m, hasEvidence, th).proposal.escalations
            == MatchEscalations(o, m, th) + RuleEscalations(RuleFor(o, m, th), o, both)
  {
  }

  /** Which of the rules that end an item applies, told from the raw conditions. */
  lemma {:induction false} EndingRules(o: Observation, m: MatchOutcome, th: Thresholds)
    requires IsClear(m, th)
    ensures var rule := RuleFor(o, m, th);
            && (rule == Reversal <==> AppliesToItem(o, m, th, m.top.value, MaterialReversal))
            && (rule == KindChange <==> AppliesToItem(o, m, th, m.top.value, KindChangeRequiresSupersession))
            && (rule == Completion <==> AppliesToItem(o, m, th, m.top.value, CompletionReason))
            && (rule == Cancellation <==> AppliesToItem(o, m, th, m.top.value, CancellationReason))
            && (rule == Supersession <==> AppliesToItem(o, m, th, m.top.value, SupersessionReason))
  {
  }

  lemma {:induction false} ChangingRules(o: Observation, m: MatchOutcome, th: Thresholds)
    requires IsClear(m, th)
    ensures var rule := RuleFor(o, m, th);
            && (rule == DateUpdate <==> AppliesToItem(o, m, th, m.top.value, ChangedDueDate))
            && (rule == DateSilent <==> AppliesToItem(o, m, th, m.top.value, DateChangedSilently))
            && (rule == OwnerUpdate <==> AppliesToItem(o, m, th, m.top.value, ChangedOwner))
            && (rule == OwnerSilent <==> AppliesToItem(o, m, th, m.top.value, OwnerChangedSilently))
  {
  }

  lemma {:induction false} LastRules(o: Observation, m: MatchOutcome, th: Thresholds)
    requires IsClear(m, th)
    ensures var both := StatesOtherDate(o, m.top.value.item) && StatesOtherOwner(o, m.top.value.item);
            var last := RuleFor(o, m, th) in {TreatAsNew, Unclear};
            && (last && both <==> AppliesToItem(o, m, th, m.top.value, MultipleFieldsChanged))
            && (last && !both <==> AppliesToItem(o, m, th, m.top.value, UnclassifiedRelationship))
  {
  }

  lemma {:induction false} ReasonsGiven(o: Observation, m: MatchOutcome, hasEvidence: bool, th: Thresholds, both: bool, e: Escalation)
    requires Classified(o, m, hasEvidence, th).Proposed?
    requires both == (m.top.Some? && StatesOtherDate(o, m.top.value.item) && StatesOtherOwner(o, m.top.value.item))
    ensures e in Classified(o, m, hasEvidence, th).proposal.escalations
            <==> Inherits(o, m, th, e) || Gives(RuleFor(o, m, th), o.isExplicit, both, e)
  {
    EscalationsOf(o, m, hasEvidence, th);
    InConcat(MatchEscalations(o, m, th), RuleEscalations(RuleFor(o, m, th), o, both), e);
    InheritedReasons(o, m, th, e);
    OwnReasons(RuleFor(o, m, th), o, both, e);
  }

  /** Why a proposal is escalated: each reason is given exactly when it applies. */
  lemma {:induction false} EscalatesExactlyWhen(o: Observation, m: MatchOutcome, hasEvidence: bool, th: Thresholds, e: Escalation)
    requires Classified(o, m, hasEvidence, th).Proposed?
    ensures e in Classified(o, m, hasEvidence, th).proposal.escalations <==> Applies(o, m, th, e)
  {
    var both := m.top.Some? && StatesOtherDate(o, m.top.value.item) && StatesOtherOwner(o, m.top.value.item);
    ReasonsGiven(o, m, hasEvidence, th, both, e);
    if IsClear(m, th) {
      ReasonsOfItem(o, m, th, both, e);
    } else {
      ReasonsWithoutItem(o, m, th, both, e);
    }
  }

  lemma {:induction false} ReasonsWithoutItem(o: Observation, m: MatchOutcome, th: Thresholds, both: bool, e: Escalation)
    requires !IsClear(m, th)
    ensures Inherits(o, m, th, e) || Gives(RuleFor(o, m, th), o.isExplicit, both, e) <==> Applies(o, m, th, e)
  {
  }

  lemma {:induction false} ReasonsOfItem(o: Observation, m: MatchOutcome, th: Thresholds, both: bool, e: Escalation)
    requires IsClear(m, th) && both == (StatesOtherDate(o, m.top.value.item) && StatesOtherOwner(o, m.top.value.item))
    ensures Inherits(o, m, th, e) || Gives(RuleFor(o, m, th), o.isExplicit, both, e) <==> Applies(o, m, th, e)
  {
    if e in ENDING_REASONS {
      EndingRules(o, m, th);
      EndingReasons(o, m, th, RuleFor(o, m, th), both, e);
    } else if e in CHANGING_REASONS {
      ChangingRules(o, m, th);
      ChangingReasons(o, m, th, RuleFor(o, m, th), both, e);
    } else {
      OtherReasons(o, m, th, both, e);
    }
  }

  lemma {:induction false} OtherReasons(o: Observation, m: MatchOutcome, th: Thresholds, both: bool, e: Escalation)
    requires IsClear(m, th) && both == (StatesOtherDate(o, m.top.value.item) && StatesOtherOwner(o, m.top.value.item))
    requires e !in ENDING_REASONS && e !in CHANGING_REASONS
    ensures Inherits(o, m, th, e) || Gives(RuleFor(o, m, th), o.isExplicit, both, e) <==> Applies(o, m, th, e)
  {
    LastRules(o, m, th);
  }

  const ENDING_REASONS := {
    MaterialReversal, KindChangeRequiresSupersession, CompletionReason, InferredNotExplicit, CancellationReason, SupersessionReason}

  const CHANGING_REASONS := {ChangedDueDate, DateChangedSilently, ChangedOwner, OwnerChangedSilently}

  lemma {:induction false} EndingReasons(o: Observation, m: MatchOutcome, th: Thresholds, rule: Rule, both: bool, e: Escalation)
    requires IsClear(m, th) && e in ENDING_REASONS
    requires rule == Reversal <==> AppliesToItem(o, m, th, m.top.value, MaterialReversal)
    requires rule == KindChange <==> AppliesToItem(o, m, th, m.top.value, KindChangeRequiresSupersession)
    requires rule == Completion <==> AppliesToItem(o, m, th, m.top.value, CompletionReason)
    requires rule == Cancellation <==> AppliesToItem(o, m, th, m.top.value, CancellationReason)
    requires rule == Supersession <==> AppliesToItem(o, m, th, m.top.value, SupersessionReason)
    ensures Gives(rule, o.isExplicit, both, e) <==> Applies(o, m, th, e)
  {
  }

  lemma {:induction false} ChangingReasons(o: Observation, m: MatchOutcome, th: Thresholds, rule: Rule, both: bool, e: Escalation)
    requires IsClear(m, th) && e in CHANGING_REASONS
    requires rule == DateUpdate <==> AppliesToItem(o, m, th, m.top.value, ChangedDueDate)
    requires rule == DateSilent <==> AppliesToItem(o, m, th, m.top.value, DateChangedSilently)
    requires rule == OwnerUpdate <==> AppliesToItem(o, m, th, m.top.value, ChangedOwner)
    requires rule == OwnerSilent <==> AppliesToItem(o, m, th, m.top.value, OwnerChangedSilently)
    ensures Gives(rule, o.isExplicit, both, e) <==> Applies(o, m, th, e)
  {
  }

  predicate Applies(o: Observation, m: MatchOutcome, th: Thresholds, e: Escalation) {
    if e == AmbiguousOwnerReason then o.owner.outcome == AmbiguousOwner
    else if e == UpdateWithoutTarget then (m.tier == NoMatch || m.top.None?) && o.kind == UpdateKind
    else if m.tier == NoMatch || m.top.None? then false
    else if e == WithinScoreMargin then !IsClear(m, th)
    else if !IsClear(m, th) then false
    else AppliesToItem(o, m, th, m.top.value, e)
  }

  predicate AppliesToItem(o: Observation, m: MatchOutcome, th: Thresholds, top: ScoredCandidate, e: Escalation) {
    var item := top.item;
    var otherDate, otherOwner := StatesOtherDate(o, item), StatesOtherOwner(o, item);
    match e
    case BelowStrongThreshold => m.tier == Review
    case WeakCandidateMatch => m.tier == Uncertain
    case CorrectedFieldDisagreement => top.features.corrected != 0.0
    case MaterialReversal =>
      !IsLive(item)
      && (o.signals.completion || o.signals.cancellation || o.signals.supersession || AsksOtherKind(o, item)
          || otherDate || otherOwner)
    case KindChangeRequiresSupersession => IsLive(item) && AsksOtherKind(o, item)
    case CompletionReason => IsLive(item) && !AsksOtherKind(o, item) && o.signals.completion
    case InferredNotExplicit => IsLive(item) && !AsksOtherKind(o, item) && o.signals.completion && !o.isExplicit
    case CancellationReason => IsLive(item) && !AsksOtherKind(o, item) && !o.signals.completion && o.signals.cancellation
    case SupersessionReason =>
      && IsLive(item) && !AsksOtherKind(o, item) && !o.signals.completion && !o.signals.cancellation
      && AsksReplacement(o, item)
    case ChangedDueDate => IsLive(item) && KeepsItem(o, item) && otherDate && !otherOwner && o.signals.dateChange
    case DateChangedSilently => IsLive(item) && KeepsItem(o, item) && otherDate && !otherOwner && !o.signals.dateChange
    case ChangedOwner => IsLive(item) && KeepsItem(o, item) && otherOwner && !otherDate && o.signals.ownerAssignment
    case OwnerChangedSilently => IsLive(item) && KeepsItem(o, item) && otherOwner && !otherDate && !o.signals.ownerAssignment
    case MultipleFieldsChanged => IsLive(item) && KeepsItem(o, item) && otherDate && otherOwner
    case UnclassifiedRelationship =>
      && KeepsItem(o, item) && !otherDate && !otherOwner && !Repeats(o, top, th)
      && (IsLive(item) || !o.signals.supersession)
    case _ => false
  }

  // ----- what a proposal can be --------------------------------------------

  /**
   * The assertion that an update observation never reaches `CreatePatch` fails on exactly one family of inputs:
   * an update with supersession language, and no completion or cancellation language, whose clear best match is
   * a live item of a supersedable kind.
   */
  lemma {:induction false} CrashesExactlyWhen(o: Observation, m: MatchOutcome, hasEvidence: bool, th: Thresholds)
    ensures Classified(o, m, hasEvidence, th) == AssertionFailed <==>
            && o.kind == UpdateKind
            && m.tier != NoMatch && m.top.Some? && !TooCloseToCall(m, th)
            && m.top.value.item.status !in TERMINAL_STATUSES
            && m.top.value.item.kind in SUPERSEDABLE_KINDS
            && o.signals.supersession && !o.signals.completion && !o.signals.cancellation
  {
  }

  /** A stored item's status is one its kind allows. */
  predicate IsStored(item: LedgerItem) {
    item.status in ValidStatuses(item.kind)
  }

  /** The ledger transition a proposal asks for. */
  function TransitionOf(a: Action): Option<Transition> {
    match a
    case UPDATE => Some(Update)
    case COMPLETE => Some(Complete)
    case CANCEL => Some(Cancel)
    case SUPERSEDE => Some(Supersede)
    case _ => None
  }

  function TargetStatus(a: Action, item: LedgerItem): Status {
    match a
    case COMPLETE => Completed
    case CANCEL => Canceled
    case SUPERSEDE => Superseded
    case _ => item.status
  }

  /**
   * Every proposed transition starts from a live item. Updates, cancellations and supersessions are always legal
   * under the ledger's own check, completions exactly for commitments and milestones, and the flag stored with
   * the proposal is the ledger's verdict.
   */
  lemma {:induction false} ProposedTransitionsAreLegal(o: Observation, m: MatchOutcome, hasEvidence: bool, th: Thresholds)
    requires m.top.Some? && IsStored(m.top.value.item)
    requires Classified(o, m, hasEvidence, th).Proposed?
    ensures var p, item := Classified(o, m, hasEvidence, th).proposal, m.top.value.item;
            TransitionOf(p.action).Some? ==>
              var verdict := ValidateTransition(item.kind, Some(item.status), TargetStatus(p.action, item), TransitionOf(p.action).value);
              && p.target == Some(item.id)
              && item.status in NON_TERMINAL_STATUSES
              && (verdict == Legal <==> p.action != COMPLETE || item.kind in {Commitment, Milestone})
              && (p.domainValid <==> verdict == Legal)
  {
    var item := m.top.value.item;
    TransitionIsProposed(o, m, hasEvidence, th);
    if TransitionOf(Classified(o, m, hasEvidence, th).proposal.action).Some? {
      VerdictOf(Classified(o, m, hasEvidence, th).proposal.action, item);
    }
  }

  lemma {:induction false} TransitionIsProposed(o: Observation, m: MatchOutcome, hasEvidence: bool, th: Thresholds)
    requires m.top.Some? && IsStored(m.top.value.item)
    requires Classified(o, m, hasEvidence, th).Proposed?
    ensures var p, item := Classified(o, m, hasEvidence, th).proposal, m.top.value.item;
            TransitionOf(p.action).Some? ==>
              && p.target == Some(item.id)
              && item.status in NON_TERMINAL_STATUSES
              && p.domainValid == IsDomainValid(item.kind, item.status, TargetStatus(p.action, item), TransitionOf(p.action).value)
  {
    var item := m.top.value.item;
    assert item.status in TERMINAL_STATUSES || item.status in NON_TERMINAL_STATUSES;
  }

  lemma {:induction false} VerdictOf(a: Action, item: LedgerItem)
    requires IsStored(item) && item.status in NON_TERMINAL_STATUSES && TransitionOf(a).Some?
    ensures ValidateTransition(item.kind, Some(item.status), TargetStatus(a, item), TransitionOf(a).value) == Legal
            <==> a != COMPLETE || item.kind in {Commitment, Milestone}
  {
    assert Canceled in ValidStatuses(item.kind) && Superseded in ValidStatuses(item.kind);
  }

  /** A proposal has no target exactly when it creates, finds no item, or cannot tell two apart; else it is the top match. */
  lemma {:induction false} TargetIsTopMatch(o: Observation, m: MatchOutcome, hasEvidence: bool, th: Thresholds)
    requires Classified(o, m, hasEvidence, th).Proposed?
    ensures var p := Classified(o, m, hasEvidence, th).proposal;
            && (p.target.Some? ==> m.top.Some? && p.target == Some(m.top.value.item.id))
            && (p.action == CREATE ==> p.target.None?)
            && (p.target.None? && p.action != CREATE ==>
                  p.action == CONFLICT && (m.tier == NoMatch || m.top.None? || TooCloseToCall(m, th)))
            && (p.action in {CREATE, SUPERSEDE} <==> p.patch.NewItemPatch?)
  {
  }

  /**
   * A supersession names the item it closes, and its new item has the observation's natural kind: another kind
   * only for the two cross-kind cases the rule is for, an item of the same kind otherwise.
   */
  lemma {:induction false} SupersessionsLinkBack(o: Observation, m: MatchOutcome, hasEvidence: bool, th: Thresholds)
    requires Classified(o, m, hasEvidence, th).Proposed?
    requires Classified(o, m, hasEvidence, th).proposal.action == SUPERSEDE
    ensures var p := Classified(o, m, hasEvidence, th).proposal;
            && m.top.Some? && p.patch.supersedes == p.target == Some(m.top.value.item.id)
            && Some(p.patch.kind) == NaturalKind(o.kind)
            && (p.patch.kind != m.top.value.item.kind <==> KindChangeRequiresSupersession in p.escalations)
            && (p.patch.kind == m.top.value.item.kind ==> p.patch.kind in SUPERSEDABLE_KINDS && o.signals.supersession)
  {
    RuleEscalationsAdded(o, m, hasEvidence, th);
  }

  lemma {:induction false} RuleEscalationsAdded(o: Observation, m: MatchOutcome, hasEvidence: bool, th: Thresholds)
    requires Classified(o, m, hasEvidence, th).Proposed?
    ensures var reasons := Classified(o, m, hasEvidence, th).proposal.escalations;
            && (KindChangeRequiresSupersession in reasons <==> RuleFor(o, m, th) == KindChange)
            && (WeakCandidateMatch in reasons <==>
                  m.tier == Uncertain && RuleFor(o, m, th) !in {NoTarget, NewItem, TooClose})
  {
    var inherited := MatchEscalations(o, m, th);
    assert KindChangeRequiresSupersession !in inherited;
    assert WeakCandidateMatch in inherited <==> m.tier == Uncertain && RuleFor(o, m, th) !in {NoTarget, NewItem, TooClose};
    var both := m.top.Some? && DateConflict(o.date, m.top.value.item.due) && OwnerConflict(o.owner, m.top.value.item.owner);
    var own := RuleEscalations(RuleFor(o, m, th), o, both);
    assert KindChangeRequiresSupersession in own <==> RuleFor(o, m, th) == KindChange;
    assert WeakCandidateMatch !in own;
    assert Classified(o, m, hasEvidence, th).proposal.escalations == inherited + own;
  }

  // ----- the whole reconciliation of one observation -----------------------

  /** Each candidate scored with the default configuration. */
  function Scorer(o: Observation, today: int): Candidate -> ScoredCandidate {
    c => Scored(o, c, today, DEFAULT_WEIGHTS, DEFAULT_THRESHOLDS)
  }

  function Each(f: Candidate -> ScoredCandidate, cs: seq<Candidate>): (scored: seq<ScoredCandidate>)
    ensures |scored| == |cs| && forall i :: 0 <= i < |cs| ==> scored[i] == f(cs[i])
  {
    seq(|cs|, i requires 0 <= i < |cs| => f(cs[i]))
  }

  function ScoreAll(o: Observation, cs: seq<Candidate>, today: int): seq<ScoredCandidate> {
    Each(Scorer(o, today), cs)
  }

  function MatchFor(o: Observation, cs: seq<Candidate>, today: int): MatchOutcome {
    DetermineMatchOutcome(ScoreAll(o, cs, today), DEFAULT_THRESHOLDS)
  }

  /** Scores, ranks and classifies; `evidenced` are the items this observation's source already supports. */
  function Reconcile(o: Observation, cs: seq<Candidate>, today: int, evidenced: set<string>): Result {
    var m := MatchFor(o, cs, today);
    Classified(o, m, m.top.Some? && m.top.value.item.id in evidenced, DEFAULT_THRESHOLDS)
  }

  /** The top match is one of the candidates, scored with its own features. */
  lemma {:induction false} TopIsScored(o: Observation, cs: seq<Candidate>, today: int) returns (i: nat)
    requires cs != []
    ensures i < |cs| && MatchFor(o, cs, today).top == Some(Scored(o, cs[i], today, DEFAULT_WEIGHTS, DEFAULT_THRESHOLDS))
  {
    var scored := ScoreAll(o, cs, today);
    TopIsGiven(scored, DEFAULT_THRESHOLDS);
    i :| 0 <= i < |scored| && scored[i] == MatchFor(o, cs, today).top.value;
  }

  /** A strong match has no penalty flag, and a top match with a conflicting owner is always uncertain. */
  lemma {:induction false} TierAndPenalties(o: Observation, cs: seq<Candidate>, today: int)
    requires cs != []
    ensures var m := MatchFor(o, cs, today);
            var f := m.top.value.features;
            && m.top.Some?
            && (m.tier == Strong ==> f.exclusiveOwner == f.longAgo == f.corrected == 0.0)
            && (OwnerConflict(o.owner, m.top.value.item.owner) ==> m.tier == Uncertain)
            && (f.corrected != 0.0 ==> DateConflict(o.date, m.top.value.item.due) || OwnerConflict(o.owner, m.top.value.item.owner))
  {
    var i := TopIsScored(o, cs, today);
    DefaultScoreBounds(o, cs[i], today, DEFAULT_THRESHOLDS);
  }

  /** So every owner reassignment that is proposed carries the weak-match escalation. */
  lemma {:induction false} ReassignmentsAreWeak(o: Observation, cs: seq<Candidate>, today: int, evidenced: set<string>)
    requires Reconcile(o, cs, today, evidenced).Proposed?
    requires Reconcile(o, cs, today, evidenced).proposal.patch.OwnerPatch?
    ensures WeakCandidateMatch in Reconcile(o, cs, today, evidenced).proposal.escalations
  {
    var m := MatchFor(o, cs, today);
    TopIsGiven(ScoreAll(o, cs, today), DEFAULT_THRESHOLDS);
    OwnerPatchNeedsConflict(o, m, m.top.Some? && m.top.value.item.id in evidenced, DEFAULT_THRESHOLDS);
    TierAndPenalties(o, cs, today);
    RuleEscalationsAdded(o, m, m.top.Some? && m.top.value.item.id in evidenced, DEFAULT_THRESHOLDS);
  }

  lemma {:induction false} UnescalatedRules(o: Observation, m: MatchOutcome, hasEvidence: bool, th: Thresholds)
    requires Classified(o, m, hasEvidence, th).Proposed?
    ensures var p, rule := Classified(o, m, hasEvidence, th).proposal, RuleFor(o, m, th);
            && (p.escalations == [] <==>
                  && o.owner.outcome != AmbiguousOwner
                  && (rule == NewItem
                      || (rule == SameProposition && m.tier != Review && m.tier != Uncertain
                          && m.top.value.features.corrected == 0.0)))
            && (p.action in {NO_OP, ADD_EVIDENCE} <==> rule == SameProposition)
            && (p.action == CREATE <==> rule in {NewItem, TreatAsNew})
  {
    var both := m.top.Some? && DateConflict(o.date, m.top.value.item.due) && OwnerConflict(o.owner, m.top.value.item.owner);
    var inherited, own := MatchEscalations(o, m, th), RuleEscalations(RuleFor(o, m, th), o, both);
    assert own == [] <==> RuleFor(o, m, th) in {NewItem, SameProposition};
    assert Classified(o, m, hasEvidence, th).proposal.escalations == inherited + own;
  }

  /** What scoring guarantees of every match. */
  predicate IsScoredMatch(o: Observation, m: MatchOutcome) {
    && (m.top.Some? <==> m.tier != NoMatch)
    && (m.top.Some? && m.tier == Strong ==> m.top.value.features.corrected == 0.0)
    && (m.top.Some? && OwnerConflict(o.owner, m.top.value.item.owner) ==> m.tier == Uncertain)
  }

  lemma {:induction false} MatchIsScored(o: Observation, cs: seq<Candidate>, today: int)
    ensures IsScoredMatch(o, MatchFor(o, cs, today)) && (MatchFor(o, cs, today).tier == NoMatch <==> cs == [])
  {
    TopIsGiven(ScoreAll(o, cs, today), DEFAULT_THRESHOLDS);
    if cs != [] {
      TierAndPenalties(o, cs, today);
    }
  }

  lemma {:induction false} UnescalatedMatch(o: Observation, m: MatchOutcome, hasEvidence: bool, th: Thresholds)
    requires IsScoredMatch(o, m) && Classified(o, m, hasEvidence, th).Proposed?
    ensures var p := Classified(o, m, hasEvidence, th).proposal;
            p.escalations == [] <==>
              && o.owner.outcome != AmbiguousOwner
              && ((p.action == CREATE && m.tier == NoMatch) || (p.action in {NO_OP, ADD_EVIDENCE} && m.tier == Strong))
  {
    UnescalatedRules(o, m, hasEvidence, th);
  }

  /**
   * Nothing is escalated exactly when the owner is not ambiguous and either a new item is created because there
   * was no candidate, or a strong match merely repeats what the ledger says.
   */
  lemma {:induction false} UnescalatedExactlyWhen(o: Observation, cs: seq<Candidate>, today: int, evidenced: set<string>)
    requires Reconcile(o, cs, today, evidenced).Proposed?
    ensures var p, m := Reconcile(o, cs, today, evidenced).proposal, MatchFor(o, cs, today);
            p.escalations == [] <==>
              && o.owner.outcome != AmbiguousOwner
              && ((p.action == CREATE && cs == []) || (p.action in {NO_OP, ADD_EVIDENCE} && m.tier == Strong))
  {
    var m := MatchFor(o, cs, today);
    MatchIsScored(o, cs, today);
    UnescalatedMatch(o, m, m.top.Some? && m.top.value.item.id in evidenced, DEFAULT_THRESHOLDS);
  }

  /** The crash is reachable: one live, supersedable candidate is enough, whatever its score. */
  lemma {:induction false} UpdateSupersessionCrashes(o: Observation, c: Candidate, today: int, evidenced: set<string>)
    requires o.kind == UpdateKind && o.signals.supersession && !o.signals.completion && !o.signals.cancellation
    requires c.item.status in NON_TERMINAL_STATUSES && c.item.kind in SUPERSEDABLE_KINDS
    ensures Reconcile(o, [c], today, evidenced) == AssertionFailed
  {
    var scored := ScoreAll(o, [c], today);
    assert Rank(scored[1..]) == [];
    assert Rank(scored) == [scored[0]];
    var m := MatchFor(o, [c], today);
    CrashesExactlyWhen(o, m, m.top.value.item.id in evidenced, DEFAULT_THRESHOLDS);
  }

  /** The signals are what the phrase search finds in the normalized statement. */
  ghost predicate SignalsDetected(o: Observation, normalized: string) {
    && (o.signals.completion <==> Normalization.DetectsCompletion(normalized))
    && (o.signals.cancellation <==> Normalization.DetectsCancellation(normalized))
    && (o.signals.supersession <==> Normalization.DetectsSupersession(normalized))
  }

  /** And one three-word statement is enough to set the signals that way. */
  lemma {:induction false} StatementCrashes(o: Observation, c: Candidate, today: int, evidenced: set<string>)
    requires o.kind == UpdateKind && o.statement == Normalization.SUPERSEDING_STATEMENT
    requires SignalsDetected(o, Normalization.Normalize(o.statement))
    requires c.item.status in NON_TERMINAL_STATUSES && c.item.kind in SUPERSEDABLE_KINDS
    ensures Reconcile(o, [c], today, evidenced) == AssertionFailed
  {
    Normalization.SupersedingStatementIsNormal(o.statement);
    Normalization.SupersedingStatementDetected(o.statement);
    UpdateSupersessionCrashes(o, c, today, evidenced);
  }

  lemma {:induction false} EachPermutes(f: Candidate -> ScoredCandidate, a: seq<Candidate>, b: seq<Candidate>)
    requires multiset(a) == multiset(b)
    ensures multiset(Each(f, a)) == multiset(Each(f, b))
  {
    if a == [] {
      assert |multiset(b)| == 0;
      assert b == [];
    } else {
      assert a[0] in multiset(b);
      var j :| 0 <= j < |b| && b[j] == a[0];
      CountsFirst(a);
      CountsWithout(b, j);
      EachPermutes(f, a[1..], b[..j] + b[j + 1..]);
      EachFirst(f, a);
      EachRemove(f, b, j);
    }
  }

  lemma {:induction false} CountsFirst(cs: seq<Candidate>)
    requires cs != []
    ensures multiset(cs[1..]) == multiset(cs) - multiset{cs[0]}
  {
    assert cs == [cs[0]] + cs[1..];
  }

  lemma {:induction false} CountsWithout(cs: seq<Candidate>, j: nat)
    requires j < |cs|
    ensures multiset(cs[..j] + cs[j + 1..]) == multiset(cs) - multiset{cs[j]}
  {
    assert cs == cs[..j] + [cs[j]] + cs[j + 1..];
  }

  lemma {:induction false} EachFirst(f: Candidate -> ScoredCandidate, cs: seq<Candidate>)
    requires cs != []
    ensures multiset(Each(f, cs)) == multiset{f(cs[0])} + multiset(Each(f, cs[1..]))
  {
    assert Each(f, cs) == [Each(f, cs)[0]] + Each(f, cs[1..]);
  }

  lemma {:induction false} EachRemove(f: Candidate -> ScoredCandidate, cs: seq<Candidate>, j: nat)
    requires j < |cs|
    ensures multiset(Each(f, cs)) == multiset{f(cs[j])} + multiset(Each(f, cs[..j] + cs[j + 1..]))
  {
    var s, t := Each(f, cs), Each(f, cs[..j] + cs[j + 1..]);
    assert s == s[..j] + [s[j]] + s[j + 1..];
    assert t == s[..j] + s[j + 1..];
  }

  /**
   * Reconciliation does not depend on the order of the candidates whenever the best score reaches the review
   * threshold or is not tied: either the best match is unique, or the answer is a conflict without a target.
   */
  lemma {:induction false} ReconcileOrderIndependent(
    o: Observation, a: seq<Candidate>, b: seq<Candidate>, today: int, evidenced: set<string>)
    requires multiset(a) == multiset(b)
    requires var m := MatchFor(o, a, today);
             m.top.Some? ==> m.top.value.score >= DEFAULT_THRESHOLDS.reviewScore || m.margin != Some(0.0)
    ensures Reconcile(o, a, today, evidenced) == Reconcile(o, b, today, evidenced)
  {
    EachPermutes(Scorer(o, today), a, b);
    OutcomeOrderIndependent(ScoreAll(o, a, today), ScoreAll(o, b, today), DEFAULT_THRESHOLDS);
    TopIsGiven(ScoreAll(o, a, today), DEFAULT_THRESHOLDS);
    var m, n := MatchFor(o, a, today), MatchFor(o, b, today);
    ClassifiedAlike(o, m, n, m.top.Some? && m.top.value.item.id in evidenced,
                    n.top.Some? && n.top.value.item.id in evidenced, DEFAULT_THRESHOLDS);
  }

  lemma {:induction false} ClassifiedAlike(
    o: Observation, m: MatchOutcome, n: MatchOutcome, mEvidence: bool, nEvidence: bool, th: Thresholds)
    requires m.tier == n.tier && m.margin == n.margin && (m.top.Some? <==> n.top.Some?)
    requires m.top.Some? ==> m.top.value.score == n.top.value.score
    requires m.top == n.top ==> mEvidence == nEvidence
    requires m.top == n.top || TooCloseToCall(m, th)
    ensures Classified(o, m, mEvidence, th) == Classified(o, n, nEvidence, th)
  {
    assert MatchEscalations(o, m, th) == MatchEscalations(o, n, th);
  }

  /** Below that threshold an exact tie does depend on it: the first of two equally scored items is the target. */
  lemma {:induction false} TiesBelowReviewDependOnOrder(
    o: Observation, x: Candidate, y: Candidate, today: int, evidenced: set<string>)
    requires o.signals.cancellation && !o.signals.supersession && !o.signals.blocking
    requires x.item.id != y.item.id && x.item.status == y.item.status == Active
    requires Scored(o, x, today, DEFAULT_WEIGHTS, DEFAULT_THRESHOLDS).score
          == Scored(o, y, today, DEFAULT_WEIGHTS, DEFAULT_THRESHOLDS).score < DEFAULT_THRESHOLDS.reviewScore
    requires !o.signals.completion
    ensures Reconcile(o, [x, y], today, evidenced).Proposed? && Reconcile(o, [y, x], today, evidenced).Proposed?
    ensures Reconcile(o, [x, y], today, evidenced).proposal.target == Some(x.item.id)
    ensures Reconcile(o, [y, x], today, evidenced).proposal.target == Some(y.item.id)
  {
    TiedPairMatches(ScoreAll(o, [x, y], today));
    TiedPairMatches(ScoreAll(o, [y, x], today));
    CancellationHasTarget(o, MatchFor(o, [x, y], today), x.item.id in evidenced);
    CancellationHasTarget(o, MatchFor(o, [y, x], today), y.item.id in evidenced);
  }

  lemma {:induction false} CancellationHasTarget(o: Observation, m: MatchOutcome, hasEvidence: bool)
    requires m.tier != NoMatch && m.top.Some? && !TooCloseToCall(m, DEFAULT_THRESHOLDS)
    requires o.signals.cancellation && !o.signals.supersession && !o.signals.blocking && !o.signals.completion
    requires m.top.value.item.status == Active
    ensures Classified(o, m, hasEvidence, DEFAULT_THRESHOLDS).Proposed?
    ensures Classified(o, m, hasEvidence, DEFAULT_THRESHOLDS).proposal.target == Some(m.top.value.item.id)
  {
  }

  lemma {:induction false} TiedPairMatches(cs: seq<ScoredCandidate>)
    requires |cs| == 2 && cs[0].score == cs[1].score < DEFAULT_THRESHOLDS.reviewScore
    ensures var m := DetermineMatchOutcome(cs, DEFAULT_THRESHOLDS);
            m.tier == Uncertain && m.top == Some(cs[0]) && !TooCloseToCall(m, DEFAULT_THRESHOLDS)
  {
    TiedPairKeepsOrder(cs);
  }

  lemma {:induction false} TiedPairKeepsOrder(cs: seq<ScoredCandidate>)
    requires |cs| == 2 && cs[0].score == cs[1].score
    ensures Rank(cs) == cs
  {
    assert cs[1..][1..] == [];
    assert Rank(cs[1..]) == cs[1..];
    assert cs == [cs[0]] + cs[1..];
  }

  // ----- confidence --------------------------------------------------------

  datatype Band = Low | Medium | High

  function BandRank(b: Band): nat {
    match b case Low => 0 case Medium => 1 case High => 2
  }

  function Weakest(a: Band, b: Band): Band {
    if BandRank(b) < BandRank(a) then b else a
  }

  /** What the observation's text states, as extracted. */
  datatype Stated = Stated(ownerText: string, dateText: string, hasDateValue: bool)

  function ExtractionConfidence(o: Observation, texts: Stated): Band {
    var stated := texts.ownerText != "" || texts.hasDateValue || texts.dateText != "";
    if o.isExplicit && stated then High else if o.isExplicit || stated then Medium else Low
  }

  /** The margin and score in the closeness test are literals here, not the configured thresholds. */
  function MatchConfidence(m: MatchOutcome, ownerAmbiguous: bool, correctedConflict: bool): Band {
    if m.tier == NoMatch then High
    else
      var closeMargin := m.margin.Some? && m.margin.value < 0.15 && m.top.Some? && m.top.value.score >= 0.65;
      if ownerAmbiguous || correctedConflict || closeMargin then Low
      else match m.tier case Strong => High case Review => Medium case _ => Low
  }

  function MutationConfidence(p: Proposal): Band {
    if p.action == CONFLICT then Low
    else if p.action in {CREATE, NO_OP, ADD_EVIDENCE} then High
    else if !p.explicitLanguage || !p.domainValid then Low
    else High
  }

  function BandOf(o: Observation, m: MatchOutcome, p: Proposal, texts: Stated): Band {
    var corrected := m.top.Some? && m.top.value.features.corrected > 0.0;
    Weakest(Weakest(ExtractionConfidence(o, texts), MatchConfidence(m, o.owner.outcome == AmbiguousOwner, corrected)),
            MutationConfidence(p))
  }

  /** The band stored with the proposal. */
  function OverallBand(o: Observation, cs: seq<Candidate>, today: int, evidenced: set<string>, texts: Stated): Band
    requires Reconcile(o, cs, today, evidenced).Proposed?
  {
    BandOf(o, MatchFor(o, cs, today), Reconcile(o, cs, today, evidenced).proposal, texts)
  }

  /** The band is the weakest of three, and each is what its own evidence allows. */
  lemma {:induction false} BandExactlyWhen(o: Observation, m: MatchOutcome, p: Proposal, texts: Stated)
    ensures var stated := texts.ownerText != "" || texts.hasDateValue || texts.dateText != "";
            var close := m.margin.Some? && m.margin.value < 0.15 && m.top.Some? && m.top.value.score >= 0.65;
            var doubtful := o.owner.outcome == AmbiguousOwner || (m.top.Some? && m.top.value.features.corrected > 0.0) || close;
            var changes := p.action in {UPDATE, COMPLETE, CANCEL, SUPERSEDE};
            && (BandOf(o, m, p, texts) == High <==>
                  && o.isExplicit && stated
                  && (m.tier == NoMatch || (m.tier == Strong && !doubtful))
                  && p.action != CONFLICT && (changes ==> p.explicitLanguage && p.domainValid))
            && (BandOf(o, m, p, texts) == Low <==>
                  || (!o.isExplicit && !stated)
                  || (m.tier != NoMatch && (m.tier == Uncertain || doubtful))
                  || p.action == CONFLICT || (changes && !(p.explicitLanguage && p.domainValid)))
  {
  }

  /**
   * For a proposal that escalates nothing, only the extraction can lower the band. No proposal against an item
   * whose owner conflicts, and no conflict, is above low.
   */
  lemma {:induction false} BandFollowsEscalation(
    o: Observation, cs: seq<Candidate>, today: int, evidenced: set<string>, texts: Stated)
    requires Reconcile(o, cs, today, evidenced).Proposed?
    ensures var p, band := Reconcile(o, cs, today, evidenced).proposal, OverallBand(o, cs, today, evidenced, texts);
            && (p.escalations == [] ==> band == ExtractionConfidence(o, texts))
            && (p.action == CONFLICT ==> band == Low)
            && (p.patch.OwnerPatch? ==> band == Low)
            && (TransitionOf(p.action).Some? && !p.domainValid ==> band == Low)
  {
    var m := MatchFor(o, cs, today);
    MatchIsScored(o, cs, today);
    BandOfClassified(o, m, m.top.Some? && m.top.value.item.id in evidenced, texts);
  }

  lemma {:induction false} BandOfClassified(o: Observation, m: MatchOutcome, hasEvidence: bool, texts: Stated)
    requires IsScoredMatch(o, m) && Classified(o, m, hasEvidence, DEFAULT_THRESHOLDS).Proposed?
    ensures var p := Classified(o, m, hasEvidence, DEFAULT_THRESHOLDS).proposal;
            var band := BandOf(o, m, p, texts);
            && (p.escalations == [] ==> band == ExtractionConfidence(o, texts))
            && (p.action == CONFLICT ==> band == Low)
            && (p.patch.OwnerPatch? ==> band == Low)
            && (TransitionOf(p.action).Some? && !p.domainValid ==> band == Low)
  {
    var p := Classified(o, m, hasEvidence, DEFAULT_THRESHOLDS).proposal;
    if p.escalations == [] {
      UnescalatedIsConfident(o, m, hasEvidence);
    }
    if p.patch.OwnerPatch? {
      OwnerPatchNeedsConflict(o, m, hasEvidence, DEFAULT_THRESHOLDS);
    }
    BandFromParts(o, m, p, texts);
  }

  lemma {:induction false} BandFromParts(o: Observation, m: MatchOutcome, p: Proposal, texts: Stated)
    ensures var band := BandOf(o, m, p, texts);
            && (p.action == CONFLICT ==> band == Low)
            && (m.tier == Uncertain ==> band == Low)
            && (TransitionOf(p.action).Some? && !p.domainValid ==> band == Low)
  {
  }

  lemma {:induction false} UnescalatedIsConfident(o: Observation, m: MatchOutcome, hasEvidence: bool)
    requires IsScoredMatch(o, m) && Classified(o, m, hasEvidence, DEFAULT_THRESHOLDS).Proposed?
    requires Classified(o, m, hasEvidence, DEFAULT_THRESHOLDS).proposal.escalations == []
    ensures MatchConfidence(m, o.owner.outcome == AmbiguousOwner, m.top.Some? && m.top.value.features.corrected > 0.0) == High
    ensures MutationConfidence(Classified(o, m, hasEvidence, DEFAULT_THRESHOLDS).proposal) == High
  {
    UnescalatedMatch(o, m, hasEvidence, DEFAULT_THRESHOLDS);
    if m.tier == Strong && TooCloseToCall(m, DEFAULT_THRESHOLDS) {
      TooCloseConflicts(o, m, hasEvidence);
    }
  }

  lemma {:induction false} TooCloseConflicts(o: Observation, m: MatchOutcome, hasEvidence: bool)
    requires m.tier != NoMatch && m.top.Some? && TooCloseToCall(m, DEFAULT_THRESHOLDS)
    ensures Classified(o, m, hasEvidence, DEFAULT_THRESHOLDS).Proposed?
    ensures Classified(o, m, hasEvidence, DEFAULT_THRESHOLDS).proposal.action == CONFLICT
  {
  }

  lemma {:induction false} OwnerPatchNeedsConflict(o: Observation, m: MatchOutcome, hasEvidence: bool, th: Thresholds)
    requires Classified(o, m, hasEvidence, th).Proposed?
    requires Classified(o, m, hasEvidence, th).proposal.patch.OwnerPatch?
    ensures m.tier != NoMatch && m.top.Some? && OwnerConflict(o.owner, m.top.value.item.owner)
    ensures RuleFor(o, m, th) == OwnerUpdate
  {
  }
}
