/** Concurrent brief generators over one table of generated briefs. */
module BriefLifecycle {
  import opened Text

  datatype BriefType = CurrentProject | MeetingPreparation

  datatype BriefStatus = Generating | Valid | Failed | Superseded

  datatype Row = Row(project: string, briefType: BriefType, status: BriefStatus, markdown: Option<string>, error: Option<string>)

  /** Rows by primary key. */
  type Table = map<string, Row>

  // ----- the statements ----------------------------------------------------

  /** An id that is taken violates the primary key, and nothing is stored. */
  function Inserted(rows: Table, id: string, project: string, briefType: BriefType): Table {
    if id in rows then rows else rows[id := Row(project, briefType, Generating, None, None)]
  }

  /** The update names the row by id and project, whatever its status. */
  function Finalized(rows: Table, id: string, project: string, status: BriefStatus, markdown: Option<string>, error: Option<string>): Table {
    if id in rows && rows[id].project == project then
      rows[id := rows[id].(status := status, markdown := markdown, error := error)]
    else rows
  }

  predicate IsPrevious(rows: Table, id: string, project: string, briefType: BriefType, except: string) {
    id in rows && rows[id].project == project && rows[id].briefType == briefType && rows[id].status == Valid && id != except
  }

  function SupersededRows(rows: Table, project: string, briefType: BriefType, except: string): Table {
    map id | id in rows :: if IsPrevious(rows, id, project, briefType, except) then rows[id].(status := Superseded) else rows[id]
  }

  class BriefTable {
    var rows: Table

    constructor ()
      ensures rows == map[]
    {
      rows := map[];
    }

    method InsertBrief(id: string, project: string, briefType: BriefType) returns (ok: bool)
      modifies this
      ensures ok <==> id !in old(rows)
      ensures rows == Inserted(old(rows), id, project, briefType)
    {
      ok := id !in rows;
      if ok {
        rows := rows[id := Row(project, briefType, Generating, None, None)];
      }
    }

    method FinalizeBrief(id: string, project: string, status: BriefStatus, markdown: Option<string>, error: Option<string>)
      modifies this
      ensures rows == Finalized(old(rows), id, project, status, markdown, error)
    {
      if id in rows && rows[id].project == project {
        rows := rows[id := rows[id].(status := status, markdown := markdown, error := error)];
      }
    }

    method SupersedePreviousValidBriefs(project: string, briefType: BriefType, except: string) returns (updated: nat)
      modifies this
      ensures rows == SupersededRows(old(rows), project, briefType, except)
      ensures updated == |set id | id in old(rows) && IsPrevious(old(rows), id, project, briefType, except)|
    {
      var previous := set id | id in rows && IsPrevious(rows, id, project, briefType, except);
      rows := map id | id in rows :: if id in previous then rows[id].(status := Superseded) else rows[id];
      updated := |previous|;
    }

    /** One committed transaction of a generator: its first inserts, its second finishes. */
    method TakeTurn(g: Generator, turns: nat)
      modifies this
      ensures rows == Step(old(rows), g, turns)
    {
      if turns == 0 {
        var _ := InsertBrief(g.id, g.project, g.briefType);
      } else if turns == 1 {
        match g.outcome {
          case Succeeds(markdown) =>
            FinalizeBrief(g.id, g.project, Valid, Some(markdown), None);
            var _ := SupersedePreviousValidBriefs(g.project, g.briefType, g.id);
          case ProviderFails(error) =>
            FinalizeBrief(g.id, g.project, Failed, None, Some(error));
          case Breaks =>
        }
      }
    }

    method RunSchedule(gens: seq<Generator>, schedule: seq<nat>)
      requires rows == map[] && IsSchedule(gens, schedule)
      modifies this
      ensures rows == Run(gens, schedule, |schedule|)
    {
      var turns := seq(|gens|, _ => 0);
      for k := 0 to |schedule|
        invariant |turns| == |gens| && forall g :: 0 <= g < |gens| ==> turns[g] == Turns(schedule, k, g)
        invariant rows == Run(gens, schedule, k)
      {
        var g := schedule[k];
        TakeTurn(gens[g], turns[g]);
        turns := turns[g := turns[g] + 1];
      }
    }
  }

  // ----- generators and their interleavings --------------------------------

  /** A transaction that breaks is rolled back and leaves its brief generating. */
  datatype Outcome = Succeeds(markdown: string) | ProviderFails(error: string) | Breaks

  datatype Generator = Generator(id: string, project: string, briefType: BriefType, outcome: Outcome)

  function Step(rows: Table, g: Generator, turns: nat): Table {
    if turns == 0 then Inserted(rows, g.id, g.project, g.briefType)
    else if turns == 1 then
      match g.outcome
      case Succeeds(markdown) =>
        SupersededRows(Finalized(rows, g.id, g.project, Valid, Some(markdown), None), g.project, g.briefType, g.id)
      case ProviderFails(error) => Finalized(rows, g.id, g.project, Failed, None, Some(error))
      case Breaks => rows
    else rows
  }

  /** Who commits next, in any order and for any time; a generator may stop after its insert. */
  predicate IsSchedule(gens: seq<Generator>, schedule: seq<nat>) {
    forall k :: 0 <= k < |schedule| ==> schedule[k] < |gens|
  }

  predicate HasFreshIds(gens: seq<Generator>) {
    forall g, h :: 0 <= g < h < |gens| ==> gens[g].id != gens[h].id
  }

  function Turns(schedule: seq<nat>, n: nat, g: nat): nat
    requires n <= |schedule|
  {
    if n == 0 then 0 else Turns(schedule, n - 1, g) + if schedule[n - 1] == g then 1 else 0
  }

  /** The table after the first `n` commits. */
  function Run(gens: seq<Generator>, schedule: seq<nat>, n: nat): Table
    requires IsSchedule(gens, schedule) && n <= |schedule|
  {
    if n == 0 then map[]
    else
      var g := schedule[n - 1];
      Step(Run(gens, schedule, n - 1), gens[g], Turns(schedule, n - 1, g))
  }

  /** Whether commit `k` is the success of a generator for this project and type. */
  predicate IsSuccess(gens: seq<Generator>, schedule: seq<nat>, k: nat, project: string, briefType: BriefType)
    requires IsSchedule(gens, schedule) && k < |schedule|
  {
    var g := gens[schedule[k]];
    Turns(schedule, k, schedule[k]) == 1 && g.outcome.Succeeds? && g.project == project && g.briefType == briefType
  }

  /** The generator of the most recent success, told from the schedule alone. */
  function LastSuccess(gens: seq<Generator>, schedule: seq<nat>, n: nat, project: string, briefType: BriefType): Option<nat>
    requires IsSchedule(gens, schedule) && n <= |schedule|
  {
    if n == 0 then None
    else if IsSuccess(gens, schedule, n - 1, project, briefType) then Some(schedule[n - 1])
    else LastSuccess(gens, schedule, n - 1, project, briefType)
  }

  // ----- what every interleaving leaves ------------------------------------

  /** The row of a generator that has inserted its brief. */
  function Expected(gens: seq<Generator>, schedule: seq<nat>, n: nat, g: nat): Row
    requires IsSchedule(gens, schedule) && n <= |schedule| && g < |gens|
  {
    var gen := gens[g];
    if Turns(schedule, n, g) <= 1 || gen.outcome.Breaks? then Row(gen.project, gen.briefType, Generating, None, None)
    else if gen.outcome.ProviderFails? then Row(gen.project, gen.briefType, Failed, None, Some(gen.outcome.error))
    else
      var current := LastSuccess(gens, schedule, n, gen.project, gen.briefType) == Some(g);
      Row(gen.project, gen.briefType, if current then Valid else Superseded, Some(gen.outcome.markdown), None)
  }

  predicate RowIs(rows: Table, gens: seq<Generator>, schedule: seq<nat>, n: nat, g: nat)
    requires IsSchedule(gens, schedule) && n <= |schedule| && g < |gens|
  {
    if Turns(schedule, n, g) == 0 then gens[g].id !in rows
    else gens[g].id in rows && rows[gens[g].id] == Expected(gens, schedule, n, g)
  }

  predicate IsOwned(gens: seq<Generator>, id: string) {
    exists g :: 0 <= g < |gens| && gens[g].id == id
  }

  ghost predicate AllRowsAre(rows: Table, gens: seq<Generator>, schedule: seq<nat>, n: nat)
    requires IsSchedule(gens, schedule) && n <= |schedule|
  {
    && (forall g :: 0 <= g < |gens| ==> RowIs(rows, gens, schedule, n, g))
    && forall id <- rows :: IsOwned(gens, id)
  }

  lemma {:induction false} LastSuccessHasFinished(gens: seq<Generator>, schedule: seq<nat>, n: nat, project: string, briefType: BriefType)
    requires IsSchedule(gens, schedule) && n <= |schedule|
    ensures var last := LastSuccess(gens, schedule, n, project, briefType);
            last.Some? ==> last.value < |gens| && Turns(schedule, n, last.value) >= 2 && gens[last.value].outcome.Succeeds?
                           && gens[last.value].project == project && gens[last.value].briefType == briefType
  {
    if n > 0 {
      LastSuccessHasFinished(gens, schedule, n - 1, project, briefType);
    }
  }

  /** A commit changes the row of its own generator as expected. */
  lemma {:induction false} OwnRowStep(rows: Table, gens: seq<Generator>, schedule: seq<nat>, n: nat)
    requires IsSchedule(gens, schedule) && n < |schedule| && RowIs(rows, gens, schedule, n, schedule[n])
    ensures RowIs(Step(rows, gens[schedule[n]], Turns(schedule, n, schedule[n])), gens, schedule, n + 1, schedule[n])
  {
  }

  /** And the row of any other generator only when it takes over from it. */
  lemma {:induction false} OtherRowStep(rows: Table, gens: seq<Generator>, schedule: seq<nat>, n: nat, h: nat)
    requires IsSchedule(gens, schedule) && HasFreshIds(gens) && n < |schedule| && h < |gens| && h != schedule[n]
    requires RowIs(rows, gens, schedule, n, h) && RowIs(rows, gens, schedule, n, schedule[n])
    ensures RowIs(Step(rows, gens[schedule[n]], Turns(schedule, n, schedule[n])), gens, schedule, n + 1, h)
  {
    assert gens[h].id != gens[schedule[n]].id;
    LastSuccessHasFinished(gens, schedule, n, gens[h].project, gens[h].briefType);
  }

  lemma {:induction false} StepKeepsOwned(rows: Table, gens: seq<Generator>, g: nat, turns: nat)
    requires g < |gens| && forall id <- rows :: IsOwned(gens, id)
    ensures forall id <- Step(rows, gens[g], turns) :: IsOwned(gens, id)
  {
    assert IsOwned(gens, gens[g].id);
  }

  /** Under any interleaving the table is exactly what the schedule says. */
  lemma {:induction false} TableIsDetermined(gens: seq<Generator>, schedule: seq<nat>, n: nat)
    requires IsSchedule(gens, schedule) && HasFreshIds(gens) && n <= |schedule|
    ensures AllRowsAre(Run(gens, schedule, n), gens, schedule, n)
  {
    if n > 0 {
      TableIsDetermined(gens, schedule, n - 1);
      var g := schedule[n - 1];
      var rows := Run(gens, schedule, n - 1);
      StepKeepsOwned(rows, gens, g, Turns(schedule, n - 1, g));
      forall h | 0 <= h < |gens| ensures RowIs(Run(gens, schedule, n), gens, schedule, n, h) {
        if h == g {
          OwnRowStep(rows, gens, schedule, n - 1);
        } else {
          OtherRowStep(rows, gens, schedule, n - 1, h);
        }
      }
    }
  }

  predicate IsCurrent(rows: Table, id: string, project: string, briefType: BriefType) {
    id in rows && rows[id].project == project && rows[id].briefType == briefType && rows[id].status == Valid
  }

  /**
   * Every committed state has at most one valid brief per project and type: that of the most recent success, with the
   * text that success stored.
   */
  lemma {:induction false} CurrentIsLatestSuccess(
    gens: seq<Generator>, schedule: seq<nat>, n: nat, project: string, briefType: BriefType, id: string)
    requires IsSchedule(gens, schedule) && HasFreshIds(gens) && n <= |schedule|
    ensures var last := LastSuccess(gens, schedule, n, project, briefType);
            IsCurrent(Run(gens, schedule, n), id, project, briefType)
            <==> last.Some? && last.value < |gens| && id == gens[last.value].id
    ensures IsCurrent(Run(gens, schedule, n), id, project, briefType)
            ==> exists g :: 0 <= g < |gens| && gens[g].id == id && gens[g].outcome.Succeeds?
                            && Run(gens, schedule, n)[id].markdown == Some(gens[g].outcome.markdown)
  {
    var rows, last := Run(gens, schedule, n), LastSuccess(gens, schedule, n, project, briefType);
    TableIsDetermined(gens, schedule, n);
    LastSuccessHasFinished(gens, schedule, n, project, briefType);
    if last.Some? {
      assert RowIs(rows, gens, schedule, n, last.value);
    }
    if IsCurrent(rows, id, project, briefType) {
      var g :| 0 <= g < |gens| && gens[g].id == id;
      assert RowIs(rows, gens, schedule, n, g);
    }
  }

  /** A failed or superseded brief never changes again. */
  lemma {:induction false} SettledBriefsStay(gens: seq<Generator>, schedule: seq<nat>, m: nat, n: nat, id: string)
    requires IsSchedule(gens, schedule) && HasFreshIds(gens) && m <= n <= |schedule|
    requires id in Run(gens, schedule, m) && Run(gens, schedule, m)[id].status in {Failed, Superseded}
    ensures id in Run(gens, schedule, n) && Run(gens, schedule, n)[id] == Run(gens, schedule, m)[id]
    decreases n
  {
    if m < n {
      SettledBriefsStay(gens, schedule, m, n - 1, id);
      TableIsDetermined(gens, schedule, n - 1);
      var g :| 0 <= g < |gens| && gens[g].id == id;
      assert RowIs(Run(gens, schedule, n - 1), gens, schedule, n - 1, g);
      SettledStep(Run(gens, schedule, n - 1), gens, schedule, n - 1, g);
    }
  }

  lemma {:induction false} SettledStep(rows: Table, gens: seq<Generator>, schedule: seq<nat>, n: nat, g: nat)
    requires IsSchedule(gens, schedule) && HasFreshIds(gens) && n < |schedule| && g < |gens|
    requires RowIs(rows, gens, schedule, n, g) && gens[g].id in rows && rows[gens[g].id].status in {Failed, Superseded}
    ensures var after := Step(rows, gens[schedule[n]], Turns(schedule, n, schedule[n]));
            gens[g].id in after && after[gens[g].id] == rows[gens[g].id]
  {
    if g != schedule[n] {
      assert gens[g].id != gens[schedule[n]].id;
    }
  }

  /** A generator's second commit finds its brief still generating: no other generator touches it. */
  lemma {:induction false} FinishesFromGenerating(gens: seq<Generator>, schedule: seq<nat>, k: nat)
    requires IsSchedule(gens, schedule) && HasFreshIds(gens) && k < |schedule| && Turns(schedule, k, schedule[k]) == 1
    ensures var id := gens[schedule[k]].id;
            id in Run(gens, schedule, k) && Run(gens, schedule, k)[id].status == Generating
  {
    TableIsDetermined(gens, schedule, k);
    assert RowIs(Run(gens, schedule, k), gens, schedule, k, schedule[k]);
  }
}
