/** Candidate scoring and ranking: features, the weighted score, and the match tier. */
module Matching {
  import opened Text
  import opened Ledger
  import opened Selections

  // ----- configuration -----------------------------------------------------

  datatype Weights = Weights(
    subject: real, owner: real, date: real, itemType: real, entities: real, reference: real,
    ownerPenalty: real, longAgoPenalty: real, correctedPenalty: real)

  datatype Thresholds = Thresholds(
    strongScore: real, strongMargin: real, reviewScore: real, sameProposition: real,
    dateWindowDays: nat, longAgoDays: nat)

  const DEFAULT_WEIGHTS := Weights(0.35, 0.20, 0.15, 0.10, 0.10, 0.10, 0.25, 0.20, 0.20)
  const DEFAULT_THRESHOLDS := Thresholds(0.82, 0.15, 0.65, 0.75, 14, 30)

  // ----- observations and ledger items -------------------------------------

  datatype ObservationKind =
    UpdateKind | DecisionKind | CommitmentKind | MilestoneKind | RiskKind | BlockerKind | OpenQuestionKind | StakeholderKind

  datatype Resolution = ResolvedOwner | AmbiguousOwner | UnknownOwner

  datatype PersonResolution = PersonResolution(outcome: Resolution, personId: Option<string>)

  /** A calendar day as an ordinal, with its ISO form. */
  datatype Day = Day(ordinal: int, iso: string)

  datatype NormalizedDate = NormalizedDate(value: Option<Day>, originalText: Option<string>)

  /** A stored due date: its text, and the day the text denotes if it parses. */
  datatype DueDate = DueDate(text: string, ordinal: Option<int>)

  /** Which explicit-language detectors fire on the normalized statement. */
  datatype Signals = Signals(
    completion: bool, cancellation: bool, dateChange: bool, ownerAssignment: bool, supersession: bool, blocking: bool)

  datatype Observation = Observation(
    kind: ObservationKind, subject: string, statement: string, isExplicit: bool,
    owner: PersonResolution, date: NormalizedDate, signals: Signals, tokens: set<string>, entities: set<string>)

  datatype LedgerItem = LedgerItem(
    id: string, kind: Kind, status: Status, owner: Option<string>, due: Option<DueDate>, userCorrected: bool,
    updatedOn: Option<int>, tokens: set<string>, entities: set<string>)

  /** A ledger item found for an observation, and whether an explicit reference found it. */
  datatype Candidate = Candidate(item: LedgerItem, viaReference: bool)

  /** The kind a new item takes; an update observation never creates one. */
  function NaturalKind(k: ObservationKind): Option<Kind> {
    match k
    case UpdateKind => None
    case DecisionKind => Some(Decision)
    case CommitmentKind => Some(Commitment)
    case MilestoneKind => Some(Milestone)
    case RiskKind => Some(Risk)
    case BlockerKind => Some(Blocker)
    case OpenQuestionKind => Some(OpenQuestion)
    case StakeholderKind => Some(Stakeholder)
  }

  predicate IsPrimaryKind(k: ObservationKind, kind: Kind) {
    k == UpdateKind || NaturalKind(k) == Some(kind)
  }

  // ----- features ----------------------------------------------------------

  datatype Features = Features(
    subject: real, owner: real, date: real, itemType: real, entities: real, reference: real,
    exclusiveOwner: real, longAgo: real, corrected: real)

  function Jaccard(a: set<string>, b: set<string>): real {
    if a == {} || b == {} then 0.0 else |a * b| as real / |a + b| as real
  }

  predicate OwnerIsKnown(owner: PersonResolution) {
    owner.outcome == ResolvedOwner && owner.personId.Some?
  }

  predicate OwnerConflict(owner: PersonResolution, itemOwner: Option<string>) {
    OwnerIsKnown(owner) && itemOwner.Some? && itemOwner != owner.personId
  }

  predicate DateConflict(date: NormalizedDate, due: Option<DueDate>) {
    date.value.Some? && due.Some? && date.value.value.iso != due.value.text
  }

  function OwnerMatch(owner: PersonResolution, itemOwner: Option<string>): real {
    if OwnerIsKnown(owner) then
      (if itemOwner.None? then 0.25 else if itemOwner == owner.personId then 1.0 else 0.0)
    else if itemOwner.Some? then 0.25
    else 0.5
  }

  function DaysApart(a: int, b: int): nat {
    if a < b then b - a else a - b
  }

  function DateProximity(date: NormalizedDate, due: Option<DueDate>, window: nat): real
    requires window > 0
  {
    if date.value.Some? && due.Some? then
      if due.value.ordinal.None? then 0.5
      else
        var away := DaysApart(date.value.value.ordinal, due.value.ordinal.value) as real / window as real;
        if away < 1.0 then 1.0 - away else 0.0
    else if date.value.Some? != due.Some? then 0.25
    else 0.5
  }

  predicate IsLongAgo(item: LedgerItem, today: int, days: nat) {
    item.status in TERMINAL_STATUSES && item.updatedOn.Some? && today - item.updatedOn.value > days
  }

  function Flag(b: bool): real {
    if b then 1.0 else 0.0
  }

  /** Each feature on its own; the method below is the step-by-step computation. */
  function FeaturesOf(o: Observation, c: Candidate, today: int, th: Thresholds): Features
    requires th.dateWindowDays > 0
  {
    Features(
      Jaccard(o.tokens, c.item.tokens),
      OwnerMatch(o.owner, c.item.owner),
      DateProximity(o.date, c.item.due, th.dateWindowDays),
      if IsPrimaryKind(o.kind, c.item.kind) then 1.0 else 0.5,
      Jaccard(o.entities, c.item.entities),
      Flag(c.viaReference),
      Flag(OwnerConflict(o.owner, c.item.owner)),
      Flag(IsLongAgo(c.item, today, th.longAgoDays)),
      Flag(c.item.userCorrected && (OwnerConflict(o.owner, c.item.owner) || DateConflict(o.date, c.item.due))))
  }

  method ComputeMatchFeatures(o: Observation, c: Candidate, today: int, th: Thresholds) returns (f: Features)
    requires th.dateWindowDays > 0
    ensures f == FeaturesOf(o, c, today, th)
  {
    var item := c.item;
    var subjectSimilarity := Jaccard(o.tokens, item.tokens);
    var entitySimilarity := Jaccard(o.entities, item.entities);

    var ownerMatch, exclusiveOwner := 0.5, 0.0;
    if o.owner.outcome == ResolvedOwner && o.owner.personId.Some? {
      if item.owner.None? {
        ownerMatch := 0.25;
      } else if item.owner == o.owner.personId {
        ownerMatch := 1.0;
      } else {
        ownerMatch := 0.0;
        exclusiveOwner := 1.0;
      }
    } else if item.owner.Some? {
      ownerMatch := 0.25;
    }

    assert ownerMatch == OwnerMatch(o.owner, item.owner) && exclusiveOwner == Flag(OwnerConflict(o.owner, item.owner));

    var dateProximity := 0.5;
    if o.date.value.Some? && item.due.Some? {
      if item.due.value.ordinal.Some? {
        var daysApart := DaysApart(o.date.value.value.ordinal, item.due.value.ordinal.value);
        dateProximity := 1.0 - daysApart as real / th.dateWindowDays as real;
        if dateProximity < 0.0 {
          dateProximity := 0.0;
        }
      }
    } else if o.date.value.Some? != item.due.Some? {
      dateProximity := 0.25;
    }

    assert dateProximity == DateProximity(o.date, item.due, th.dateWindowDays);

    var itemType := if IsPrimaryKind(o.kind, item.kind) then 1.0 else 0.5;

    var longAgo := 0.0;
    if item.status in TERMINAL_STATUSES {
      if item.updatedOn.Some? {
        if today - item.updatedOn.value > th.longAgoDays {
          longAgo := 1.0;
        }
      }
    }

    assert longAgo == Flag(IsLongAgo(item, today, th.longAgoDays));

    var corrected := 0.0;
    if item.userCorrected {
      var ownerDisagrees := OwnerIsKnown(o.owner) && item.owner.Some? && o.owner.personId != item.owner;
      var dateDisagrees := o.date.value.Some? && item.due.Some? && o.date.value.value.iso != item.due.value.text;
      if ownerDisagrees || dateDisagrees {
        corrected := 1.0;
      }
    }
    f := Features(subjectSimilarity, ownerMatch, dateProximity, itemType, entitySimilarity, Flag(c.viaReference),
                  exclusiveOwner, longAgo, corrected);
  }

  // ----- the score ---------------------------------------------------------

  function Rewards(f: Features, w: Weights): real {
    w.subject * f.subject + w.owner * f.owner + w.date * f.date + w.itemType * f.itemType
    + w.entities * f.entities + w.reference * f.reference
  }

  function Penalties(f: Features, w: Weights): real {
    w.ownerPenalty * f.exclusiveOwner + w.longAgoPenalty * f.longAgo + w.correctedPenalty * f.corrected
  }

  function RawScore(f: Features, w: Weights): real {
    Rewards(f, w) - Penalties(f, w)
  }

  function Clamp(x: real): real {
    if x < 0.0 then 0.0 else if x > 1.0 then 1.0 else x
  }

  function ScoreMatch(f: Features, w: Weights): real {
    Clamp(RawScore(f, w))
  }

  /** Each feature enters the raw score with its own weight: rewards add, penalties subtract. */
  lemma {:induction false} EachFeatureHasItsWeight(f: Features, w: Weights, x: real)
    ensures RawScore(f.(subject := x), w) - RawScore(f, w) == w.subject * x - w.subject * f.subject
    ensures RawScore(f.(owner := x), w) - RawScore(f, w) == w.owner * x - w.owner * f.owner
    ensures RawScore(f.(date := x), w) - RawScore(f, w) == w.date * x - w.date * f.date
    ensures RawScore(f.(itemType := x), w) - RawScore(f, w) == w.itemType * x - w.itemType * f.itemType
    ensures RawScore(f.(entities := x), w) - RawScore(f, w) == w.entities * x - w.entities * f.entities
    ensures RawScore(f.(reference := x), w) - RawScore(f, w) == w.reference * x - w.reference * f.reference
    ensures RawScore(f.(exclusiveOwner := x), w) - RawScore(f, w) == w.ownerPenalty * f.exclusiveOwner - w.ownerPenalty * x
    ensures RawScore(f.(longAgo := x), w) - RawScore(f, w) == w.longAgoPenalty * f.longAgo - w.longAgoPenalty * x
    ensures RawScore(f.(corrected := x), w) - RawScore(f, w) == w.correctedPenalty * f.corrected - w.correctedPenalty * x
  {
  }

  /** The default weights in hundredths; the score is the raw score, kept within 0 and 1. */
  lemma {:induction false} DefaultScoreIs(f: Features)
    ensures var raw := RawScore(f, DEFAULT_WEIGHTS);
            && raw * 100.0
               == 35.0 * f.subject + 20.0 * f.owner + 15.0 * f.date + 10.0 * (f.itemType + f.entities + f.reference)
                  - 25.0 * f.exclusiveOwner - 20.0 * (f.longAgo + f.corrected)
            && (0.0 <= raw <= 1.0 ==> ScoreMatch(f, DEFAULT_WEIGHTS) == raw)
            && (raw < 0.0 ==> ScoreMatch(f, DEFAULT_WEIGHTS) == 0.0) && (raw > 1.0 ==> ScoreMatch(f, DEFAULT_WEIGHTS) == 1.0)
  {
  }

  /** What each feature of a pair is. */
  lemma {:induction false} FeatureValues(o: Observation, c: Candidate, today: int, th: Thresholds)
    requires th.dateWindowDays > 0
    ensures var f, item := FeaturesOf(o, c, today, th), c.item;
            var known := o.owner.outcome == ResolvedOwner && o.owner.personId.Some?;
            && (known && item.owner.Some? ==> f.owner == if item.owner == o.owner.personId then 1.0 else 0.0)
            && (known != item.owner.Some? ==> f.owner == 0.25)
            && (!known && item.owner.None? ==> f.owner == 0.5)
            && (f.exclusiveOwner == 1.0 <==> known && item.owner.Some? && item.owner != o.owner.personId)
            && (f.itemType == if o.kind == UpdateKind || NaturalKind(o.kind) == Some(item.kind) then 1.0 else 0.5)
            && (f.reference == if c.viaReference then 1.0 else 0.0)
    ensures var f, item := FeaturesOf(o, c, today, th), c.item;
            && (o.date.value.Some? != item.due.Some? ==> f.date == 0.25)
            && (o.date.value.None? && item.due.None? ==> f.date == 0.5)
            && (o.date.value.Some? && item.due.Some? && item.due.value.ordinal.None? ==> f.date == 0.5)
            && (o.date.value.Some? && item.due.Some? && item.due.value.ordinal.Some? ==>
                  var days := o.date.value.value.ordinal - item.due.value.ordinal.value;
                  && (days < th.dateWindowDays && -days < th.dateWindowDays ==>
                        f.date * th.dateWindowDays as real == (th.dateWindowDays - if days < 0 then -days else days) as real)
                  && (!(days < th.dateWindowDays && -days < th.dateWindowDays) ==> f.date == 0.0))
    ensures var f, item := FeaturesOf(o, c, today, th), c.item;
            var otherOwner := o.owner.outcome == ResolvedOwner && o.owner.personId.Some? && item.owner.Some?
                              && item.owner != o.owner.personId;
            var otherDate := o.date.value.Some? && item.due.Some? && item.due.value.text != o.date.value.value.iso;
            && f.longAgo == (if item.status in {Completed, Resolved, Canceled, Superseded} && item.updatedOn.Some?
                                && item.updatedOn.value + th.longAgoDays < today then 1.0 else 0.0)
            && f.corrected == if item.userCorrected && (otherOwner || otherDate) then 1.0 else 0.0
  {
    if o.date.value.Some? && c.item.due.Some? && c.item.due.value.ordinal.Some? {
      ShareOfWindow(DaysApart(o.date.value.value.ordinal, c.item.due.value.ordinal.value), th.dateWindowDays);
    }
  }

  lemma {:induction false} ShareOfWindow(days: nat, window: nat)
    requires window > 0
    ensures var away := days as real / window as real;
            && (away < 1.0 <==> days < window)
            && (1.0 - away) * window as real == (window - days) as real
  {
    var away := days as real / window as real;
    assert away * window as real == days as real;
    if days < window {
      assert away < 1.0;
    } else {
      assert away >= 1.0;
    }
  }

  predicate InUnit(x: real) {
    0.0 <= x <= 1.0
  }

  predicate UnitFeatures(f: Features) {
    && InUnit(f.subject) && InUnit(f.owner) && InUnit(f.date) && InUnit(f.itemType)
    && InUnit(f.entities) && InUnit(f.reference)
    && InUnit(f.exclusiveOwner) && InUnit(f.longAgo) && InUnit(f.corrected)
  }

  /** Jaccard similarity is 1 exactly for equal non-empty sets, and 0 exactly when nothing is shared. */
  lemma {:induction false} JaccardRange(a: set<string>, b: set<string>)
    ensures InUnit(Jaccard(a, b))
    ensures Jaccard(a, b) == 1.0 <==> a == b != {}
    ensures Jaccard(a, b) == 0.0 <==> a * b == {}
    ensures Jaccard(a, b) * |a + b| as real == |a * b| as real
  {
    if a != {} && b != {} {
      var i, u := |a * b|, |a + b|;
      assert u > 0 by {
        var x :| x in a;
        assert x in a + b;
      }
      CardinalityMonotone(a * b, a + b);
      RatioRange(i, u);
      FullOverlap(a, b);
    }
  }

  lemma {:induction false} FullOverlap(a: set<string>, b: set<string>)
    ensures |a * b| == |a + b| <==> a == b
  {
    if a == b {
      assert a * b == a && a + b == a;
    } else if |a * b| == |a + b| {
      SubsetOfSameSize(a * b, a + b);
    }
  }

  lemma {:induction false} RatioRange(i: nat, u: nat)
    requires i <= u && u > 0
    ensures InUnit(i as real / u as real)
    ensures i as real / u as real == 1.0 <==> i == u
    ensures i as real / u as real == 0.0 <==> i == 0
  {
    var q := i as real / u as real;
    assert q * u as real == i as real;
  }

  lemma {:induction false} CardinalityMonotone(a: set<string>, b: set<string>)
    requires a <= b
    ensures |a| <= |b|
  {
    assert b == a + (b - a);
  }

  lemma {:induction false} SubsetOfSameSize(a: set<string>, b: set<string>)
    requires a <= b && |a| == |b|
    ensures a == b
  {
    assert b == a + (b - a);
    assert |b - a| == 0;
  }

  lemma {:induction false} ProximityRange(date: NormalizedDate, due: Option<DueDate>, window: nat)
    requires window > 0
    ensures InUnit(DateProximity(date, due, window))
  {
    if date.value.Some? && due.Some? && due.value.ordinal.Some? {
      var d := DaysApart(date.value.value.ordinal, due.value.ordinal.value);
      assert d as real / window as real >= 0.0;
    }
  }

  lemma {:induction false} FeaturesInUnit(o: Observation, c: Candidate, today: int, th: Thresholds)
    requires th.dateWindowDays > 0
    ensures UnitFeatures(FeaturesOf(o, c, today, th))
  {
    JaccardRange(o.tokens, c.item.tokens);
    JaccardRange(o.entities, c.item.entities);
    ProximityRange(o.date, c.item.due, th.dateWindowDays);
  }

  predicate NonNegative(w: Weights) {
    && w.subject >= 0.0 && w.owner >= 0.0 && w.date >= 0.0 && w.itemType >= 0.0 && w.entities >= 0.0
    && w.reference >= 0.0 && w.ownerPenalty >= 0.0 && w.longAgoPenalty >= 0.0 && w.correctedPenalty >= 0.0
  }

  /** `g` is at least as good a match as `f`: no reward is lower and no penalty is higher. */
  predicate Dominates(g: Features, f: Features) {
    && g.subject >= f.subject && g.owner >= f.owner && g.date >= f.date && g.itemType >= f.itemType
    && g.entities >= f.entities && g.reference >= f.reference
    && g.exclusiveOwner <= f.exclusiveOwner && g.longAgo <= f.longAgo && g.corrected <= f.corrected
  }

  lemma {:induction false} MulMonotone(w: real, x: real, y: real)
    requires w >= 0.0 && x <= y
    ensures w * x <= w * y
  {
    assert w * (y - x) >= 0.0;
  }

  /** For any non-negative weights the score is monotone in every reward and antitone in every penalty. */
  lemma {:induction false} ScoreMonotone(f: Features, g: Features, w: Weights)
    requires NonNegative(w) && Dominates(g, f)
    ensures ScoreMatch(f, w) <= ScoreMatch(g, w)
  {
    RewardsMonotone(f, g, w);
    PenaltiesMonotone(g, f, w);
  }

  lemma {:induction false} RewardsMonotone(f: Features, g: Features, w: Weights)
    requires NonNegative(w) && Dominates(g, f)
    ensures Rewards(f, w) <= Rewards(g, w)
  {
    TermsMonotone(w.subject, f.subject, g.subject, w.owner, f.owner, g.owner, w.date, f.date, g.date);
    TermsMonotone(w.itemType, f.itemType, g.itemType, w.entities, f.entities, g.entities, w.reference, f.reference, g.reference);
  }

  lemma {:induction false} TermsMonotone(
    v: real, a: real, x: real, w: real, b: real, y: real, u: real, c: real, z: real)
    requires v >= 0.0 && w >= 0.0 && u >= 0.0 && a <= x && b <= y && c <= z
    ensures v * a + w * b + u * c <= v * x + w * y + u * z
  {
    MulMonotone(v, a, x);
    MulMonotone(w, b, y);
    MulMonotone(u, c, z);
  }

  lemma {:induction false} PenaltiesMonotone(g: Features, f: Features, w: Weights)
    requires NonNegative(w) && Dominates(g, f)
    ensures Penalties(g, w) <= Penalties(f, w)
  {
    MulMonotone(w.ownerPenalty, g.exclusiveOwner, f.exclusiveOwner);
    MulMonotone(w.longAgoPenalty, g.longAgo, f.longAgo);
    MulMonotone(w.correctedPenalty, g.corrected, f.corrected);
  }

  /**
   * What the default weights can reach: the raw score never exceeds 1, so the upper clamp never acts; any
   * penalty flag keeps it at or below 0.80, and a conflicting owner at or below 0.55.
   */
  lemma {:induction false} DefaultScoreBounds(o: Observation, c: Candidate, today: int, th: Thresholds)
    requires th.dateWindowDays > 0
    ensures var f := FeaturesOf(o, c, today, th);
            && RawScore(f, DEFAULT_WEIGHTS) <= 1.0
            && (f.longAgo > 0.0 || f.corrected > 0.0 ==> ScoreMatch(f, DEFAULT_WEIGHTS) <= 0.80)
            && (f.exclusiveOwner > 0.0 ==> ScoreMatch(f, DEFAULT_WEIGHTS) <= 0.55)
  {
    FeaturesInUnit(o, c, today, th);
  }

  /** The observation and the item agree on everything, and an explicit reference led to it. */
  predicate PerfectMatch(o: Observation, item: LedgerItem) {
    && o.tokens == item.tokens != {} && o.entities == item.entities != {}
    && OwnerIsKnown(o.owner) && item.owner == o.owner.personId
    && o.date.value.Some? && item.due == Some(DueDate(o.date.value.value.iso, Some(o.date.value.value.ordinal)))
    && NaturalKind(o.kind) == Some(item.kind) && item.status == Open
  }

  lemma {:induction false} SameDay(date: NormalizedDate, due: Option<DueDate>)
    requires date.value.Some? && due.Some? && due.value.ordinal == Some(date.value.value.ordinal)
    ensures DateProximity(date, due, 14) == 1.0
  {
    assert DaysApart(date.value.value.ordinal, due.value.ordinal.value) == 0;
    assert 0 as real / 14 as real == 0.0;
  }

  lemma {:induction false} PerfectFeatures(o: Observation, item: LedgerItem, today: int, owner: Option<string>)
    requires PerfectMatch(o, item) && (owner == item.owner || (owner.Some? && !item.userCorrected))
    ensures var other := owner != item.owner;
            FeaturesOf(o, Candidate(item.(owner := owner), true), today, DEFAULT_THRESHOLDS)
            == Features(1.0, Flag(!other), 1.0, 1.0, 1.0, 1.0, Flag(other), 0.0, 0.0)
  {
    JaccardRange(o.tokens, item.tokens);
    JaccardRange(o.entities, item.entities);
    SameDay(o.date, item.due);
  }

  /** The bounds are reached: a perfect match scores 1, and a perfect match but for its owner scores 0.55. */
  lemma {:induction false} DefaultBoundsAreTight(o: Observation, item: LedgerItem, today: int, owner: Option<string>)
    requires PerfectMatch(o, item) && (owner == item.owner || (owner.Some? && !item.userCorrected))
    ensures ScoreMatch(FeaturesOf(o, Candidate(item.(owner := owner), true), today, DEFAULT_THRESHOLDS), DEFAULT_WEIGHTS)
            == if owner == item.owner then 1.0 else 0.55
  {
    PerfectFeatures(o, item, today, owner);
    PerfectScores(FeaturesOf(o, Candidate(item.(owner := owner), true), today, DEFAULT_THRESHOLDS), owner != item.owner);
  }

  lemma {:induction false} PerfectScores(f: Features, other: bool)
    requires f == Features(1.0, Flag(!other), 1.0, 1.0, 1.0, 1.0, Flag(other), 0.0, 0.0)
    ensures ScoreMatch(f, DEFAULT_WEIGHTS) == if other then 0.55 else 1.0
  {
    MulOne(DEFAULT_WEIGHTS.subject, f.subject);
    MulOne(DEFAULT_WEIGHTS.date, f.date);
    MulOne(DEFAULT_WEIGHTS.itemType, f.itemType);
    MulOne(DEFAULT_WEIGHTS.entities, f.entities);
    MulOne(DEFAULT_WEIGHTS.reference, f.reference);
    MulFlag(DEFAULT_WEIGHTS.owner, !other);
    MulFlag(DEFAULT_WEIGHTS.ownerPenalty, other);
    MulFlag(DEFAULT_WEIGHTS.longAgoPenalty, false);
    MulFlag(DEFAULT_WEIGHTS.correctedPenalty, false);
  }

  lemma {:induction false} MulOne(w: real, x: real)
    requires x == 1.0
    ensures w * x == w
  {
  }

  lemma {:induction false} MulFlag(w: real, b: bool)
    ensures w * Flag(b) == if b then w else 0.0
  {
  }

  // ----- ranking -----------------------------------------------------------

  datatype ScoredCandidate = ScoredCandidate(item: LedgerItem, features: Features, score: real)

  datatype Tier = Strong | Review | Uncertain | NoMatch

  datatype MatchOutcome = MatchOutcome(
    tier: Tier, top: Option<ScoredCandidate>, margin: Option<real>, ranked: seq<ScoredCandidate>)

  function Scored(o: Observation, c: Candidate, today: int, w: Weights, th: Thresholds): ScoredCandidate
    requires th.dateWindowDays > 0
  {
    var f := FeaturesOf(o, c, today, th);
    ScoredCandidate(c.item, f, ScoreMatch(f, w))
  }

  /** Places `c` before the first candidate it does not score below. */
  function Insert(c: ScoredCandidate, ranked: seq<ScoredCandidate>): seq<ScoredCandidate> {
    if ranked == [] || ranked[0].score <= c.score then [c] + ranked else [ranked[0]] + Insert(c, ranked[1..])
  }

  /** The stable descending sort by score. */
  function Rank(cs: seq<ScoredCandidate>): seq<ScoredCandidate> {
    if cs == [] then [] else Insert(cs[0], Rank(cs[1..]))
  }

  function DetermineMatchOutcome(cs: seq<ScoredCandidate>, th: Thresholds): MatchOutcome {
    OutcomeOf(Rank(cs), th)
  }

  function OutcomeOf(ranked: seq<ScoredCandidate>, th: Thresholds): MatchOutcome {
    if ranked == [] then MatchOutcome(NoMatch, None, None, [])
    else
      var top := ranked[0];
      var margin := if |ranked| > 1 then Some(top.score - ranked[1].score) else None;
      var tier :=
        if top.score >= th.strongScore && (margin.None? || margin.value >= th.strongMargin) then Strong
        else if top.score >= th.reviewScore then Review
        else Uncertain;
      MatchOutcome(tier, Some(top), margin, ranked)
  }

  predicate Descending(cs: seq<ScoredCandidate>) {
    forall i, j :: 0 <= i < j < |cs| ==> cs[i].score >= cs[j].score
  }

  lemma {:induction false} InsertPermutes(c: ScoredCandidate, ranked: seq<ScoredCandidate>)
    ensures multiset(Insert(c, ranked)) == multiset{c} + multiset(ranked)
  {
    if !(ranked == [] || ranked[0].score <= c.score) {
      InsertPermutes(c, ranked[1..]);
      assert ranked == [ranked[0]] + ranked[1..];
    }
  }

  lemma {:induction false} DescendingCons(c: ScoredCandidate, rest: seq<ScoredCandidate>)
    requires Descending(rest) && (rest != [] ==> rest[0].score <= c.score)
    ensures Descending([c] + rest)
  {
  }

  lemma {:induction false} InsertDescends(c: ScoredCandidate, ranked: seq<ScoredCandidate>)
    requires Descending(ranked)
    ensures Descending(Insert(c, ranked))
    ensures var head := Insert(c, ranked)[0]; head == c || (ranked != [] && head == ranked[0])
  {
    if ranked == [] || ranked[0].score <= c.score {
      DescendingCons(c, ranked);
    } else {
      InsertDescends(c, ranked[1..]);
      DescendingCons(ranked[0], Insert(c, ranked[1..]));
    }
  }

  lemma {:induction false} InsertRanks(c: ScoredCandidate, ranked: seq<ScoredCandidate>)
    requires Descending(ranked)
    ensures Descending(Insert(c, ranked)) && multiset(Insert(c, ranked)) == multiset{c} + multiset(ranked)
  {
    InsertPermutes(c, ranked);
    InsertDescends(c, ranked);
  }

  lemma {:induction false} RankSorts(cs: seq<ScoredCandidate>)
    ensures Descending(Rank(cs)) && multiset(Rank(cs)) == multiset(cs)
  {
    if cs != [] {
      RankSorts(cs[1..]);
      InsertRanks(cs[0], Rank(cs[1..]));
      assert cs == [cs[0]] + cs[1..];
    }
  }

  lemma {:induction false} InsertStable(c: ScoredCandidate, ranked: seq<ScoredCandidate>, s: real)
    ensures WithScore(Insert(c, ranked), s) == (if c.score == s then [c] else []) + WithScore(ranked, s)
  {
    if ranked == [] || ranked[0].score <= c.score {
      WithScoreCons(c, ranked, s);
    } else {
      InsertStable(c, ranked[1..], s);
      WithScoreCons(ranked[0], Insert(c, ranked[1..]), s);
    }
  }

  lemma {:induction false} WithScoreCons(c: ScoredCandidate, cs: seq<ScoredCandidate>, s: real)
    ensures WithScore([c] + cs, s) == (if c.score == s then [c] else []) + WithScore(cs, s)
  {
    assert ([c] + cs)[1..] == cs;
  }

  /** The candidates with a given score, in order. */
  function WithScore(cs: seq<ScoredCandidate>, s: real): seq<ScoredCandidate> {
    if cs == [] then [] else (if cs[0].score == s then [cs[0]] else []) + WithScore(cs[1..], s)
  }

  /** Candidates with equal scores keep the order they came in. */
  lemma {:induction false} RankIsStable(cs: seq<ScoredCandidate>, s: real)
    ensures WithScore(Rank(cs), s) == WithScore(cs, s)
  {
    if cs != [] {
      RankIsStable(cs[1..], s);
      InsertStable(cs[0], Rank(cs[1..]), s);
    }
  }

  /** Two rankings of the same candidates agree on the two best scores, and on the best candidate unless it is tied. */
  lemma {:induction false} RankingsAgree(a: seq<ScoredCandidate>, b: seq<ScoredCandidate>)
    requires Descending(a) && Descending(b) && multiset(a) == multiset(b)
    ensures |a| == |b|
    ensures a != [] ==> a[0].score == b[0].score
    ensures |a| > 1 ==> a[1].score == b[1].score
    ensures a != [] && (|a| > 1 ==> a[0].score > a[1].score) ==> a[0] == b[0]
  {
    assert |a| == |multiset(a)| == |multiset(b)| == |b|;
    if a != [] {
      FirstIsBest(a, b);
      FirstIsBest(b, a);
      if |a| > 1 {
        if a[0] == b[0] {
          RestsAlike(a, b);
          FirstIsBest(a[1..], b[1..]);
          FirstIsBest(b[1..], a[1..]);
        } else {
          SecondTies(a, b);
          SecondTies(b, a);
        }
      } else {
        assert a == [a[0]] && b == [b[0]];
        assert a[0] in multiset(b);
      }
    }
  }

  lemma {:induction false} FirstIsBest(a: seq<ScoredCandidate>, b: seq<ScoredCandidate>)
    requires Descending(a) && a != [] && b != [] && multiset(a) == multiset(b)
    ensures b[0].score <= a[0].score
  {
    assert b[0] in multiset(a);
    var i :| 0 <= i < |a| && a[i] == b[0];
  }

  lemma {:induction false} SecondTies(a: seq<ScoredCandidate>, b: seq<ScoredCandidate>)
    requires Descending(a) && |a| > 1 && b != [] && multiset(a) == multiset(b)
    requires a[0] != b[0] && a[0].score == b[0].score
    ensures a[1].score == a[0].score
  {
    assert b[0] in multiset(a);
    var i :| 0 <= i < |a| && a[i] == b[0];
  }

  /** Order cannot change the tier or the margin, nor the top candidate unless it is exactly tied. */
  lemma {:induction false} OutcomeOrderIndependent(a: seq<ScoredCandidate>, b: seq<ScoredCandidate>, th: Thresholds)
    requires multiset(a) == multiset(b)
    ensures var m, n := DetermineMatchOutcome(a, th), DetermineMatchOutcome(b, th);
            && m.tier == n.tier && m.margin == n.margin
            && (m.top.Some? <==> n.top.Some?)
            && (m.top.Some? ==> m.top.value.score == n.top.value.score)
            && (m.margin != Some(0.0) ==> m.top == n.top)
  {
    RankSorts(a);
    RankSorts(b);
    RankingsAgree(Rank(a), Rank(b));
    OutcomesAgree(Rank(a), Rank(b), th);
  }

  lemma {:induction false} OutcomesAgree(a: seq<ScoredCandidate>, b: seq<ScoredCandidate>, th: Thresholds)
    requires Descending(a) && |a| == |b|
    requires a != [] ==> a[0].score == b[0].score
    requires |a| > 1 ==> a[1].score == b[1].score
    requires a != [] && (|a| > 1 ==> a[0].score > a[1].score) ==> a[0] == b[0]
    ensures var m, n := OutcomeOf(a, th), OutcomeOf(b, th);
            && m.tier == n.tier && m.margin == n.margin
            && (m.top.Some? <==> n.top.Some?)
            && (m.top.Some? ==> m.top.value.score == n.top.value.score)
            && (m.margin != Some(0.0) ==> m.top == n.top)
  {
    if a != [] {
      assert OutcomeOf(a, th).tier == OutcomeOf(b, th).tier;
    }
  }

  /** The top candidate is one of those given, with the best score among them. */
  lemma {:induction false} TopIsGiven(cs: seq<ScoredCandidate>, th: Thresholds)
    ensures var m := DetermineMatchOutcome(cs, th);
            && (m.top.Some? <==> cs != []) && (m.tier == NoMatch <==> cs == [])
            && (m.top.Some? ==> m.top.value in cs && forall c <- cs :: c.score <= m.top.value.score)
  {
    RankSorts(cs);
    var ranked := Rank(cs);
    assert |ranked| == |multiset(ranked)| == |multiset(cs)| == |cs|;
    if cs != [] {
      assert ranked[0] in multiset(cs);
      forall c <- cs ensures c.score <= ranked[0].score {
        assert c in multiset(ranked);
        var i :| 0 <= i < |ranked| && ranked[i] == c;
      }
    }
  }

  /** The tier read off the best score and its lead over the best of the others. */
  lemma {:induction false} TierExactlyWhen(cs: seq<ScoredCandidate>, th: Thresholds, i: nat)
    requires i < |cs| && DetermineMatchOutcome(cs, th).top == Some(cs[i])
    ensures var m := DetermineMatchOutcome(cs, th);
            && (m.margin.None? <==> |cs| == 1)
            && (m.margin.Some? ==> BestOther(cs, i, cs[i].score - m.margin.value))
            && (m.tier == Strong <==> cs[i].score >= th.strongScore && (m.margin.None? || m.margin.value >= th.strongMargin))
            && (m.tier == Uncertain <==> m.tier != Strong && cs[i].score < th.reviewScore)
            && m.tier != NoMatch
  {
    RankSorts(cs);
    SameLength(Rank(cs), cs);
    if |cs| > 1 {
      SecondIsBestOther(cs, Rank(cs), i);
    }
  }

  /** The best score among the candidates other than the one at an index. */
  ghost predicate BestOther(cs: seq<ScoredCandidate>, i: nat, best: real) {
    && (forall j :: 0 <= j < |cs| && j != i ==> cs[j].score <= best)
    && exists j :: 0 <= j < |cs| && j != i && cs[j].score == best
  }

  lemma {:induction false} SecondIsBestOther(cs: seq<ScoredCandidate>, ranked: seq<ScoredCandidate>, i: nat)
    requires Descending(ranked) && multiset(ranked) == multiset(cs) && 1 < |cs| == |ranked|
    requires i < |cs| && ranked[0] == cs[i]
    ensures BestOther(cs, i, ranked[1].score)
  {
    forall j | 0 <= j < |cs| && j != i ensures cs[j].score <= ranked[1].score {
      var h := PlaceAmongOthers(cs, ranked, i, j);
    }
    RestIsOthers(cs, ranked, i);
    var j := PlaceOfOther(cs, ranked[1..], i, 0);
    assert cs[j] == ranked[1];
  }
}
