/** Reentrant transactions over one connection. */
module Transactions {
  import opened Text

  /** What can be raised: the two kinds of `OperationalError`, anything else, and the error that replaces a busy one. */
  datatype Error = Busy | Operational(message: string) | Other(message: string) | DatabaseBusy

  /** One effect on the store: a statement, or the record of an applied migration. */
  datatype Entry = Statement(sql: string) | Record(version: nat)

  /** The store is the log of the effects it has seen, so that equal logs mean equal stores. */
  type Log = seq<Entry>

  /** Code run on a connection. `begin` and `commit` say what SQLite answers if this block has to issue them. */
  datatype Program =
    | Skip
    | Write(entry: Entry)
    | Raise(error: Error)
    | Then(first: Program, second: Program)
    | Block(begin: Option<Error>, body: Program, commit: Option<Error>)
    | Swallow(body: Program)

  datatype State = State(committed: Log, working: Log, inTransaction: bool)

  predicate IsIdle(s: State) {
    !s.inTransaction && s.working == s.committed
  }

  /** A lock-contention error leaves a block as `DatabaseBusy`; every other error passes unchanged. */
  function Translate(e: Error): Error {
    if e == Busy then DatabaseBusy else e
  }

  function Exec(p: Program, s: State): (State, Option<Error>) {
    match p
    case Skip => (s, None)
    case Write(entry) =>
      (if s.inTransaction then s.(working := s.working + [entry])
       else State(s.committed + [entry], s.committed + [entry], false), None)
    case Raise(e) => (s, Some(e))
    case Then(first, second) =>
      var (s1, e1) := Exec(first, s);
      if e1.Some? then (s1, e1) else Exec(second, s1)
    case Swallow(body) => (Exec(body, s).0, None)
    case Block(begin, body, commit) =>
      if s.inTransaction then
        var (s1, e1) := Exec(body, s);
        (s1, if e1.Some? then Some(Translate(e1.value)) else None)
      else if begin.Some? then (s, Some(Translate(begin.value)))
      else
        var (s1, e1) := Exec(body, s.(inTransaction := true));
        if e1.Some? then (State(s1.committed, s1.committed, false), Some(Translate(e1.value)))
        else if commit.Some? then (s1, commit)
        else (State(s1.working, s1.working, false), None)
  }

  class Connection {
    var committed: Log
    var working: Log
    var inTransaction: bool

    function Now(): State
      reads this
    {
      State(committed, working, inTransaction)
    }

    constructor (log: Log)
      ensures Now() == State(log, log, false)
    {
      committed, working, inTransaction := log, log, false;
    }

    method Execute(entry: Entry)
      modifies this
      ensures Now() == Exec(Write(entry), old(Now())).0
    {
      if inTransaction {
        working := working + [entry];
      } else {
        committed := committed + [entry];
        working := committed;
      }
    }

    method Rollback()
      modifies this
      ensures Now() == State(old(committed), old(committed), false)
    {
      working, inTransaction := committed, false;
    }

    method Commit()
      modifies this
      ensures Now() == State(old(working), old(working), false)
    {
      committed, inTransaction := working, false;
    }

    method Run(p: Program) returns (error: Option<Error>)
      modifies this
      ensures (Now(), error) == Exec(p, old(Now()))
      decreases p, 0
    {
      match p
      case Skip =>
        error := None;
      case Write(entry) =>
        Execute(entry);
        error := None;
      case Raise(e) =>
        error := Some(e);
      case Then(first, second) =>
        error := Run(first);
        if error.None? {
          error := Run(second);
        }
      case Swallow(body) =>
        var _ := Run(body);
        error := None;
      case Block(begin, body, commit) =>
        error := Transaction(begin, body, commit);
    }

    method Transaction(begin: Option<Error>, body: Program, commit: Option<Error>) returns (error: Option<Error>)
      modifies this
      ensures (Now(), error) == Exec(Block(begin, body, commit), old(Now()))
      decreases body, 1
    {
      var alreadyInTransaction := inTransaction;
      if !alreadyInTransaction {
        if begin.Some? {
          return Some(Translate(begin.value));
        }
        inTransaction := true;
      }
      var raised := Run(body);
      if raised.Some? {
        if !alreadyInTransaction {
          Rollback();
        }
        return Some(Translate(raised.value));
      }
      if !alreadyInTransaction {
        if commit.Some? {
          return commit;
        }
        Commit();
      }
      error := None;
    }
  }

  // ----- what nesting means ------------------------------------------------

  /** The program with its blocks ignored: effects in order, up to the first error that is not swallowed. */
  function Flat(p: Program, log: Log): (Log, Option<Error>) {
    match p
    case Skip => (log, None)
    case Write(entry) => (log + [entry], None)
    case Raise(e) => (log, Some(e))
    case Then(first, second) =>
      var (l1, e1) := Flat(first, log);
      if e1.Some? then (l1, e1) else Flat(second, l1)
    case Swallow(body) => (Flat(body, log).0, None)
    case Block(_, body, _) =>
      var (l1, e1) := Flat(body, log);
      (l1, if e1.Some? then Some(Translate(e1.value)) else None)
  }

  /** Inside a transaction, whatever is nested, only the working store changes, and it changes as if flat. */
  lemma {:induction false} InsideIsFlat(p: Program, s: State)
    requires s.inTransaction
    ensures Exec(p, s) == (s.(working := Flat(p, s.working).0), Flat(p, s.working).1)
  {
    match p
    case Then(first, second) =>
      InsideIsFlat(first, s);
      InsideIsFlat(second, Exec(first, s).0);
    case Swallow(body) => InsideIsFlat(body, s);
    case Block(_, body, _) => InsideIsFlat(body, s);
    case _ =>
  }

  /** Every effect the program writes, in order. */
  function AllWrites(p: Program): Log {
    match p
    case Write(entry) => [entry]
    case Then(first, second) => AllWrites(first) + AllWrites(second)
    case Swallow(body) => AllWrites(body)
    case Block(_, body, _) => AllWrites(body)
    case _ => []
  }

  predicate SwallowsNothing(p: Program) {
    match p
    case Swallow(_) => false
    case Then(first, second) => SwallowsNothing(first) && SwallowsNothing(second)
    case Block(_, body, _) => SwallowsNothing(body)
    case _ => true
  }

  lemma {:induction false} FlatWritesAll(p: Program, log: Log)
    requires SwallowsNothing(p) && Flat(p, log).1.None?
    ensures Flat(p, log).0 == log + AllWrites(p)
  {
    match p
    case Then(first, second) =>
      FlatWritesAll(first, log);
      FlatWritesAll(second, Flat(first, log).0);
      assert log + AllWrites(first) + AllWrites(second) == log + (AllWrites(first) + AllWrites(second));
    case Block(_, body, _) => FlatWritesAll(body, log);
    case _ =>
  }

  /**
   * The outermost block of any nesting that swallows nothing either commits every write or restores the store it
   * started from exactly. The one exception is a COMMIT that fails: then nothing is committed, but the connection
   * is left inside the transaction.
   */
  lemma {:induction false} OutermostAllOrNothing(b: Program, s: State)
    requires b.Block? && SwallowsNothing(b) && IsIdle(s)
    ensures var (after, error) := Exec(b, s);
            && (error.None? ==> after.committed == s.committed + AllWrites(b) && IsIdle(after))
            && (error.Some? ==> after.committed == s.committed)
            && (error.Some? && IsIdle(after) ==> after == s)
            && (IsIdle(after) <==> b.begin.Some? || b.commit.None? || Flat(b.body, s.committed).1.Some?)
  {
    InsideIsFlat(b.body, s.(inTransaction := true));
    if Flat(b.body, s.committed).1.None? {
      FlatWritesAll(b.body, s.committed);
    }
  }

  /**
   * A raw lock-contention error leaves a block exactly when the block opened the transaction, its body went through,
   * and its COMMIT met the lock: on BEGIN and inside the body the error is translated.
   */
  lemma {:induction false} RawBusyEscapesExactlyWhen(b: Program, s: State)
    requires b.Block?
    ensures Exec(b, s).1 == Some(Busy)
            <==> !s.inTransaction && b.begin.None? && Flat(b.body, s.working).1.None? && b.commit == Some(Busy)
  {
    InsideIsFlat(b.body, s.(inTransaction := true));
  }

  /** Swallowing an inner block's error commits the part of it that ran: an inner block is not atomic by itself. */
  lemma {:induction false} SwallowedBlockIsHalfCommitted(a: Entry, b: Entry, e: Error, s: State)
    requires IsIdle(s)
    ensures var inner := Block(None, Then(Write(a), Then(Raise(e), Write(b))), None);
            Exec(Block(None, Swallow(inner), None), s) == (State(s.committed + [a], s.committed + [a], false), None)
  {
    var inner := Block(None, Then(Write(a), Then(Raise(e), Write(b))), None);
    InsideIsFlat(Swallow(inner), s.(inTransaction := true));
    assert Flat(Then(Raise(e), Write(b)), s.committed + [a]) == (s.committed + [a], Some(e));
    assert Flat(inner.body, s.committed) == (s.committed + [a], Some(e));
  }

  /** The program raises this error somewhere, or SQLite answers it to one of its BEGINs or COMMITs. */
  predicate CanRaise(p: Program, e: Error) {
    match p
    case Skip => false
    case Write(_) => false
    case Raise(raised) => raised == e
    case Then(first, second) => CanRaise(first, e) || CanRaise(second, e)
    case Block(begin, body, commit) => begin == Some(e) || commit == Some(e) || CanRaise(body, e)
    case Swallow(body) => CanRaise(body, e)
  }

  /** No error is invented or renamed: what leaves a program was raised in it, unless it stands for a lock error that was. */
  lemma {:induction false} ErrorsAreRaised(p: Program, s: State)
    ensures var error := Exec(p, s).1;
            error.Some? ==> CanRaise(p, error.value) || (error.value == DatabaseBusy && CanRaise(p, Busy))
  {
    match p
    case Then(first, second) =>
      ErrorsAreRaised(first, s);
      ErrorsAreRaised(second, Exec(first, s).0);
    case Block(_, body, _) =>
      ErrorsAreRaised(body, s);
      ErrorsAreRaised(body, s.(inTransaction := true));
    case _ =>
  }

  /** What a block does with the error its body ends in: a lock error is renamed, every other passes as it is. */
  lemma {:induction false} BodyErrorsPass(b: Program, s: State, e: Error)
    requires b.Block? && (s.inTransaction || b.begin.None?) && Flat(b.body, s.working).1 == Some(e)
    ensures Exec(b, s).1 == Some(if e == Busy then DatabaseBusy else e)
  {
    InsideIsFlat(b.body, s.(inTransaction := true));
  }
}
