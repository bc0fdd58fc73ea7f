/** The statuses and transitions of the ledger, and the histories that its transition check accepts one by one. */
module Ledger {
  import opened Text

  datatype Kind = Decision | Commitment | Milestone | Risk | Blocker | OpenQuestion | Stakeholder

  datatype Status = Open | Active | Completed | Resolved | Canceled | Superseded

  datatype Transition = Create | Update | Complete | Resolve | Cancel | Supersede | Reopen | Correct

  /** The outcome of the check; the two errors are the two exceptions it raises. */
  datatype Verdict = Legal | StatusError | TransitionError

  function ValidStatuses(kind: Kind): set<Status> {
    match kind
    case Commitment => {Open, Active, Completed, Canceled, Superseded}
    case Decision => {Active, Canceled, Superseded}
    case Milestone => {Open, Active, Completed, Canceled, Superseded}
    case Risk => {Open, Active, Resolved, Canceled, Superseded}
    case Blocker => {Open, Active, Resolved, Canceled, Superseded}
    case OpenQuestion => {Open, Resolved, Canceled, Superseded}
    case Stakeholder => {Active, Canceled, Superseded}
  }

  function InitialStatus(kind: Kind): Status {
    match kind
    case Decision => Active
    case Stakeholder => Active
    case _ => Open
  }

  const NON_TERMINAL_STATUSES := {Open, Active}
  const TERMINAL_STATUSES := {Completed, Resolved, Canceled, Superseded}

  /** `None` means that the item has no version yet. */
  predicate AllowedFrom(t: Transition, from: Option<Status>) {
    match t
    case Create => from.None?
    case Reopen => from.Some? && from.value in TERMINAL_STATUSES
    case Correct => true
    case _ => from.Some? && from.value in NON_TERMINAL_STATUSES
  }

  function FixedTarget(t: Transition): Option<Status> {
    match t
    case Complete => Some(Completed)
    case Resolve => Some(Resolved)
    case Cancel => Some(Canceled)
    case Supersede => Some(Superseded)
    case _ => None
  }

  function ValidateTransition(kind: Kind, from: Option<Status>, to: Status, t: Transition): Verdict {
    if to !in ValidStatuses(kind) then StatusError
    else if !AllowedFrom(t, from) then TransitionError
    else if t == Create || t == Reopen then (if to == InitialStatus(kind) then Legal else TransitionError)
    else if t == Update && to !in NON_TERMINAL_STATUSES then TransitionError
    else if FixedTarget(t).Some? && to != FixedTarget(t).value then TransitionError
    else Legal
  }

  // ----- histories ---------------------------------------------------------

  datatype Step = Step(transition: Transition, to: Status)

  function StatusAfter(steps: seq<Step>): Option<Status> {
    if steps == [] then None else Some(steps[|steps| - 1].to)
  }

  /** Every step of the history was accepted where it was taken. */
  predicate IsHistory(kind: Kind, steps: seq<Step>) {
    steps == []
    || (&& IsHistory(kind, steps[..|steps| - 1])
        && var last := steps[|steps| - 1];
           ValidateTransition(kind, StatusAfter(steps[..|steps| - 1]), last.to, last.transition) == Legal)
  }

  lemma {:induction false} HistoryPrefix(kind: Kind, steps: seq<Step>, n: nat)
    requires IsHistory(kind, steps) && n <= |steps|
    ensures IsHistory(kind, steps[..n])
    decreases |steps|
  {
    if n < |steps| {
      HistoryPrefix(kind, steps[..|steps| - 1], n);
      assert steps[..|steps| - 1][..n] == steps[..n];
    } else {
      assert steps[..n] == steps;
    }
  }

  /** Every status an item ever has is valid for its kind, and it leaves a terminal one only by reopen or correct. */
  lemma {:induction false} HistoryStaysValid(kind: Kind, steps: seq<Step>, i: nat)
    requires IsHistory(kind, steps) && i < |steps|
    ensures steps[i].to in ValidStatuses(kind)
    ensures i > 0 && steps[i - 1].to in TERMINAL_STATUSES ==> steps[i].transition in {Reopen, Correct}
    ensures i > 0 ==> steps[i].transition != Create
    ensures i == 0 ==> steps[i].transition in {Create, Correct}
    ensures steps[i].transition in {Create, Reopen} ==> steps[i].to == if kind in {Decision, Stakeholder} then Active else Open
    ensures steps[i].transition == Reopen ==> i > 0 && steps[i - 1].to in TERMINAL_STATUSES
    ensures steps[i].transition == Update ==> steps[i].to in {Open, Active}
    ensures steps[i].to in TERMINAL_STATUSES ==>
              steps[i].transition == Correct || ClosedBy(steps[i].to) == Some(steps[i].transition)
  {
    HistoryPrefix(kind, steps, i + 1);
    assert steps[..i + 1][..i] == steps[..i];
  }

  /** The closing transition that ends in a status. */
  function ClosedBy(to: Status): Option<Transition> {
    match to
    case Completed => Some(Complete)
    case Resolved => Some(Resolve)
    case Canceled => Some(Cancel)
    case Superseded => Some(Supersede)
    case _ => None
  }

  /** The reference shape of a history without reopen or correct: created, updated while open, closed at most once. */
  predicate IsPlainLife(kind: Kind, steps: seq<Step>) {
    steps == []
    || (&& steps[0] == Step(Create, InitialStatus(kind))
        && (forall i :: 0 <= i < |steps| ==> steps[i].to in ValidStatuses(kind))
        && (forall i :: 0 < i < |steps| - 1 ==> steps[i].transition == Update && steps[i].to in NON_TERMINAL_STATUSES)
        && var last := steps[|steps| - 1];
           (|steps| > 1 ==> if last.transition == Update then last.to in NON_TERMINAL_STATUSES
                            else ClosedBy(last.to) == Some(last.transition)))
  }

  predicate Uncorrected(steps: seq<Step>) {
    forall s <- steps :: s.transition !in {Reopen, Correct}
  }

  /** Without reopen and correct, the accepted histories are exactly the plain lives. */
  lemma {:induction false} UncorrectedHistories(kind: Kind, steps: seq<Step>)
    requires Uncorrected(steps)
    ensures IsHistory(kind, steps) <==> IsPlainLife(kind, steps)
  {
    if steps != [] {
      var n := |steps| - 1;
      UncorrectedHistories(kind, steps[..n]);
      assert steps[n] in steps;
      if n > 0 {
        UncorrectedStep(kind, steps);
      }
    }
  }

  lemma {:induction false} UncorrectedStep(kind: Kind, steps: seq<Step>)
    requires |steps| > 1 && steps[|steps| - 1].transition !in {Reopen, Correct}
    ensures var n := |steps| - 1;
            IsPlainLife(kind, steps) <==>
              IsPlainLife(kind, steps[..n])
              && ValidateTransition(kind, Some(steps[n - 1].to), steps[n].to, steps[n].transition) == Legal
  {
    var n := |steps| - 1;
    var init := steps[..n];
    assert forall i :: 0 <= i < n ==> init[i] == steps[i];
    if n > 1 {
      assert ClosedBy(init[n - 1].to).Some? <==> init[n - 1].to in TERMINAL_STATUSES;
    }
  }

  /** The status table has no dead entry: what a kind can reach without corrections is exactly what it allows. */
  lemma {:induction false} ReachableIsValid(kind: Kind, s: Status)
    ensures (exists steps :: IsHistory(kind, steps) && Uncorrected(steps) && StatusAfter(steps) == Some(s))
            <==> s in ValidStatuses(kind)
  {
    if s in ValidStatuses(kind) {
      var born := [Step(Create, InitialStatus(kind))];
      var step := Step(if s in NON_TERMINAL_STATUSES then Update else ClosedBy(s).value, s);
      var steps := born + [step];
      assert IsPlainLife(kind, steps) && Uncorrected(steps);
      UncorrectedHistories(kind, steps);
      assert StatusAfter(steps) == Some(s);
    }
    forall steps | IsHistory(kind, steps) && StatusAfter(steps) == Some(s) ensures s in ValidStatuses(kind) {
      HistoryStaysValid(kind, steps, |steps| - 1);
    }
  }

  /**
   * The first version is made by create with the initial status or by correct with any valid one; the check's
   * own description names only create.
   */
  lemma {:induction false} FirstVersion(kind: Kind, t: Transition, to: Status)
    ensures ValidateTransition(kind, None, to, t) == Legal <==>
            (t == Create && to == InitialStatus(kind)) || (t == Correct && to in ValidStatuses(kind))
  {
    assert InitialStatus(kind) in ValidStatuses(kind);
  }

  /** Which kinds of item can have a status. */
  predicate HasStatus(kind: Kind, status: Status) {
    match status
    case Open => kind !in {Decision, Stakeholder}
    case Active => kind != OpenQuestion
    case Completed => kind in {Commitment, Milestone}
    case Resolved => kind in {Risk, Blocker, OpenQuestion}
    case Canceled => true
    case Superseded => true
  }

  /** Which of its two errors the check raises: the status is looked at first. */
  lemma {:induction false} VerdictExactlyWhen(kind: Kind, from: Option<Status>, to: Status, t: Transition)
    ensures var verdict := ValidateTransition(kind, from, to, t);
            && (verdict == StatusError <==> !HasStatus(kind, to))
            && (verdict == Legal <==>
                  && HasStatus(kind, to)
                  && (t == Create ==> from.None?)
                  && (t == Reopen ==> from.Some? && from.value in {Completed, Resolved, Canceled, Superseded})
                  && (t in {Create, Reopen} ==> to == if kind in {Decision, Stakeholder} then Active else Open)
                  && (t in {Update, Complete, Resolve, Cancel, Supersede} ==> from.Some? && from.value in {Open, Active})
                  && (t == Update ==> to in {Open, Active})
                  && (t == Complete ==> to == Completed) && (t == Resolve ==> to == Resolved)
                  && (t == Cancel ==> to == Canceled) && (t == Supersede ==> to == Superseded))
  {
  }
}
