/**
 `atomic` and `discarded` compiled onto SQLite's BEGIN / SAVEPOINT / RELEASE /
 ROLLBACK TO, against an all-or-nothing reference semantics. Any statement may
 fail, and a failure may take the whole transaction with it.
 */
module TxnScopes {

  type Db = map<string, int>

  /** How one SQL statement goes wrong, if it does. */
  datatype Fault = NoFault | StatementFails | TransactionAborts

  /** The faults waiting for one scope: at its opening, its RELEASE/COMMIT, and the two undo statements. */
  datatype ScopeFaults = ScopeFaults(opening: Fault, closing: Fault, undoRollback: Fault, undoRelease: Fault)

  /** Block-structured client code; `Catch` may or may not also catch `sqlite3.Error`. */
  datatype Prog =
    | Skip
    | Write(key: string, value: int, fault: Fault)
    | Raise
    | Then(first: Prog, second: Prog)
    | Catch(body: Prog, handler: Prog, databaseErrors: bool)
    | Atomic(name: string, scope: Prog, faults: ScopeFaults)
    | Discarded(name: string, scope: Prog, faults: ScopeFaults)

  datatype Outcome = Returned | Raised(databaseError: bool)

  // ----- reference semantics: atomic keeps all or nothing, discarded keeps nothing -----

  function Ref(p: Prog, db: Db): (Db, Outcome) {
    match p
    case Skip => (db, Returned)
    case Write(k, v, fault) => if fault.NoFault? then (db[k := v], Returned) else (db, Raised(true))
    case Raise => (db, Raised(false))
    case Then(p0, p1) =>
      var (db0, o0) := Ref(p0, db);
      if o0.Raised? then (db0, o0) else Ref(p1, db0)
    case Catch(body, handler, databaseErrors) =>
      var (db0, o0) := Ref(body, db);
      if Catches(databaseErrors, o0) then Ref(handler, db0) else (db0, o0)
    case Atomic(name, scope, faults) =>
      if !ValidName(name) then (db, Raised(false))
      else if !faults.opening.NoFault? then (db, Raised(true))
      else
        var (db0, o0) := Ref(scope, db);
        if o0.Raised? then (db, o0)
        else if !faults.closing.NoFault? then (db, Raised(true))
        else (db0, Returned)
    case Discarded(name, scope, faults) =>
      if !ValidName(name) then (db, Raised(false))
      else if !faults.opening.NoFault? then (db, Raised(true))
      else (db, Ref(scope, db).1)
  }

  predicate Catches(databaseErrors: bool, o: Outcome) {
    o.Raised? && (databaseErrors || !o.databaseError)
  }

  // ----- scope names -----

  predicate NameStart(c: char) {
    'a' <= c <= 'z' || 'A' <= c <= 'Z' || c == '_'
  }

  predicate NameChar(c: char) {
    NameStart(c) || '0' <= c <= '9'
  }

  /** The name as SQL reads it; the pattern's `$` lets one trailing newline through. */
  function Trimmed(name: string): string {
    if name != [] && name[|name| - 1] == '\n' then name[..|name| - 1] else name
  }

  predicate ValidName(name: string) {
    var t := Trimmed(name);
    t != [] && NameStart(t[0]) && forall c | c in t :: NameChar(c)
  }

  function LowerChar(c: char): char {
    if 'A' <= c <= 'Z' then ((c as int) + 32) as char else c
  }

  /** Savepoint names are matched without regard to case. */
  function SaveId(name: string): string {
    var t := Trimmed(name);
    seq(|t|, i requires 0 <= i < |t| => LowerChar(t[i]))
  }

  /**
   Which texts are scope names, letter by letter: a letter or underscore alone, or a
   name without newline followed by a letter, digit, underscore or one last newline.
   */
  lemma ValidNameGrows(name: string, c: char)
    ensures !ValidName([])
    ensures ValidName([c]) <==> NameStart(c)
    ensures name != [] ==> (ValidName(name + [c]) <==> ValidName(name) && '\n' !in name && (NameChar(c) || c == '\n'))
  {
    var longer := name + [c];
    assert longer[..|name|] == name;
    if name != [] {
      assert longer[0] == name[0] && name[0] in name;
      assert forall x :: x in longer <==> x in name || x == c;
    }
  }

  /** Two names denote one savepoint exactly if they agree letter by letter, capitals aside. */
  lemma SameSavepoint(a: string, b: string)
    requires '\n' !in a && '\n' !in b
    ensures SaveId(a) == SaveId(b) <==>
              |a| == |b| && forall i | 0 <= i < |a| :: a[i] == b[i] || SameLetter(a[i], b[i]) || SameLetter(b[i], a[i])
  {
    assert a != [] ==> a[|a| - 1] in a;
    assert b != [] ==> b[|b| - 1] in b;
    assert Trimmed(a) == a && Trimmed(b) == b;
    if SaveId(a) == SaveId(b) {
      forall i | 0 <= i < |a| ensures a[i] == b[i] || SameLetter(a[i], b[i]) || SameLetter(b[i], a[i]) {
        assert SaveId(a)[i] == SaveId(b)[i];
      }
    }
  }

  /** The second is the first in lower case. */
  predicate SameLetter(upper: char, lower: char) {
    'A' <= upper <= 'Z' && 'a' <= lower <= 'z' && lower as int - 'a' as int == upper as int - 'A' as int
  }

  // ----- the connection -----

  datatype Save = Save(id: string, db: Db)

  /** `db` is what this connection sees, `durable` what a fresh connection would see. */
  datatype Conn = Conn(db: Db, durable: Db, open: bool, saves: seq<Save>)

  predicate Wf(c: Conn) {
    !c.open ==> c.saves == [] && c.db == c.durable
  }

  /** Index of the most recent savepoint with this name, or -1. */
  function LastSave(saves: seq<Save>, id: string): (k: int)
    ensures -1 <= k < |saves|
    ensures k >= 0 ==> saves[k].id == id
    ensures forall j | k < j < |saves| :: saves[j].id != id
  {
    if saves == [] then -1
    else if saves[|saves| - 1].id == id then |saves| - 1
    else LastSave(saves[..|saves| - 1], id)
  }

  function RolledBack(c: Conn): Conn {
    Conn(c.durable, c.durable, false, [])
  }

  /** A failing statement: either nothing happened, or the whole transaction is gone. */
  function Failed(c: Conn, fault: Fault): Conn {
    if fault.TransactionAborts? then RolledBack(c) else c
  }

  function Put(c: Conn, k: string, v: int, fault: Fault): (Conn, bool) {
    if !fault.NoFault? then (Failed(c, fault), false)
    else if c.open then (c.(db := c.db[k := v]), true)
    else (c.(db := c.db[k := v], durable := c.db[k := v]), true)
  }

  function BeginImmediate(c: Conn, fault: Fault): (Conn, bool)
    requires !c.open
  {
    if !fault.NoFault? then (Failed(c, fault), false) else (c.(open := true), true)
  }

  function Savepoint(c: Conn, name: string, fault: Fault): (Conn, bool)
    requires c.open
  {
    if !fault.NoFault? then (Failed(c, fault), false)
    else (c.(saves := c.saves + [Save(SaveId(name), c.db)]), true)
  }

  /** Drops the most recent savepoint of that name and everything after it. */
  function Release(c: Conn, name: string, fault: Fault): (Conn, bool) {
    var k := LastSave(c.saves, SaveId(name));
    if !fault.NoFault? then (Failed(c, fault), false)
    else if k < 0 then (c, false)
    else (c.(saves := c.saves[..k]), true)
  }

  /** Restores the most recent savepoint of that name, which stays on the stack. */
  function RollbackTo(c: Conn, name: string, fault: Fault): (Conn, bool) {
    var k := LastSave(c.saves, SaveId(name));
    if !fault.NoFault? then (Failed(c, fault), false)
    else if k < 0 then (c, false)
    else (c.(db := c.saves[k].db, saves := c.saves[..k + 1]), true)
  }

  /** `Connection.commit()`: nothing to do, and nothing to fail, outside a transaction. */
  function Commit(c: Conn, fault: Fault): (Conn, bool) {
    if !c.open then (c, true)
    else if !fault.NoFault? then (Failed(c, fault), false)
    else (Conn(c.db, c.db, false, []), true)
  }

  function Rollback(c: Conn): Conn {
    if c.open then RolledBack(c) else c
  }

  // ----- cognitive_txn.py -----

  function Begin(c: Conn, name: string, fault: Fault): (Conn, bool) {
    if c.open then Savepoint(c, name, fault) else BeginImmediate(c, fault)
  }

  function Undo(c: Conn, name: string, nested: bool, faults: ScopeFaults): Conn {
    if !nested then Rollback(c)
    else
      var (c0, ok0) := RollbackTo(c, name, faults.undoRollback);
      if !ok0 then Rollback(c0)
      else
        var (c1, ok1) := Release(c0, name, faults.undoRelease);
        if ok1 then c1 else Rollback(c1)
  }

  function Close(c: Conn, name: string, nested: bool, fault: Fault): (Conn, bool) {
    if nested then Release(c, name, fault) else Commit(c, fault)
  }

  /** The way out of an `atomic` block entered on `c` whose body ended in `end`. */
  function LeaveAtomic(c: Conn, end: (Conn, Outcome), name: string, faults: ScopeFaults): (Conn, Outcome) {
    if end.1.Raised? then (Undo(end.0, name, c.open, faults), end.1)
    else
      var (closed, ok) := Close(end.0, name, c.open, faults.closing);
      if ok then (closed, Returned) else (Undo(closed, name, c.open, faults), Raised(true))
  }

  function LeaveDiscarded(c: Conn, end: (Conn, Outcome), name: string, faults: ScopeFaults): (Conn, Outcome) {
    (Undo(end.0, name, c.open, faults), end.1)
  }

  function Run(p: Prog, c: Conn): (Conn, Outcome) {
    match p
    case Skip => (c, Returned)
    case Write(k, v, fault) =>
      var (c0, ok) := Put(c, k, v, fault);
      (c0, if ok then Returned else Raised(true))
    case Raise => (c, Raised(false))
    case Then(p0, p1) =>
      var (c0, o0) := Run(p0, c);
      if o0.Raised? then (c0, o0) else Run(p1, c0)
    case Catch(body, handler, databaseErrors) =>
      var (c0, o0) := Run(body, c);
      if Catches(databaseErrors, o0) then Run(handler, c0) else (c0, o0)
    case Atomic(name, scope, faults) =>
      if !ValidName(name) then (c, Raised(false))
      else
        var (c0, ok0) := Begin(c, name, faults.opening);
        if !ok0 then (c0, Raised(true))
        else
          LeaveAtomic(c, Run(scope, c0), name, faults)
    case Discarded(name, scope, faults) =>
      if !ValidName(name) then (c, Raised(false))
      else
        var (c0, ok0) := Begin(c, name, faults.opening);
        if !ok0 then (c0, Raised(true))
        else
          LeaveDiscarded(c, Run(scope, c0), name, faults)
  }

  // ----- when a lost transaction goes unnoticed -----

  /**
   A lost transaction went unnoticed: a handler took over after the loss and then
   returned or made something durable, or a `discarded` block lost the transaction in
   its own undo and returned. A handler that only raises again swallows nothing.
   */
  predicate Swallows(p: Prog, c: Conn) {
    match p
    case Then(p0, p1) =>
      Swallows(p0, c) || (Run(p0, c).1.Returned? && Swallows(p1, Run(p0, c).0))
    case Catch(body, handler, databaseErrors) =>
      var (c0, o0) := Run(body, c);
      || Swallows(body, c)
      || (Catches(databaseErrors, o0)
          && (Swallows(handler, c0) || (c.open && !c0.open && Resumes(Run(handler, c0), c0))))
    case Atomic(name, scope, faults) =>
      var (c0, ok0) := Begin(c, name, faults.opening);
      ValidName(name) && ok0 && Swallows(scope, c0)
    case Discarded(name, scope, faults) =>
      var (c0, ok0) := Begin(c, name, faults.opening);
      ValidName(name) && ok0 &&
      (Swallows(scope, c0) || (c.open && Run(p, c).1.Returned? && !Run(p, c).0.open))
    case _ => false
  }

  predicate Resumes(end: (Conn, Outcome), lost: Conn) {
    end.1.Returned? || end.0.durable != lost.durable
  }

  // ----- refinement -----

  /**
   Inside a transaction: either the connection is exactly as the reference says, or the
   transaction is gone and the error is on its way out.
   */
  predicate Tracks(p: Prog, c: Conn) {
    var (c', o) := Run(p, c);
    var (db, ref) := Ref(p, c.db);
    && c'.durable == c.durable
    && o == ref
    && (if c'.open then c'.saves == c.saves && c'.db == db else o.Raised? && c' == RolledBack(c))
  }

  lemma LastSaveTop(saves: seq<Save>, s: Save)
    ensures LastSave(saves + [s], s.id) == |saves|
  {
  }

  /** Undoing a nested scope restores its entry state, or loses the transaction. */
  lemma UndoNested(c: Conn, c1: Conn, name: string, faults: ScopeFaults)
    requires c.open && c1.durable == c.durable
    requires c1.open ==> c1.saves == c.saves + [Save(SaveId(name), c.db)]
    requires !c1.open ==> c1 == RolledBack(c)
    ensures var u := Undo(c1, name, true, faults); if u.open then c1.open && u == c else u == RolledBack(c)
  {
    if c1.open {
      LastSaveTop(c.saves, Save(SaveId(name), c.db));
      assert c1.saves[..|c.saves| + 1] == c1.saves;
      assert c1.saves[..|c.saves|] == c.saves;
    }
  }

  lemma CloseNested(c: Conn, c1: Conn, name: string, fault: Fault)
    requires c.open && c1.open && c1.durable == c.durable
    requires c1.saves == c.saves + [Save(SaveId(name), c.db)]
    ensures var (c2, ok) := Close(c1, name, true, fault);
            && ok == fault.NoFault?
            && (ok ==> c2 == c1.(saves := c.saves))
            && (!ok ==> c2 == c1 || c2 == RolledBack(c))
  {
    LastSaveTop(c.saves, Save(SaveId(name), c.db));
    assert c1.saves[..|c.saves|] == c.saves;
  }

  /** No statement's success depends on the data. */
  lemma {:induction false} RefOutcome(p: Prog, db: Db, other: Db)
    ensures Ref(p, db).1 == Ref(p, other).1
  {
    match p
    case Then(p0, p1) =>
      RefOutcome(p0, db, other);
      RefOutcome(p1, Ref(p0, db).0, Ref(p0, other).0);
    case Catch(body, handler, _) =>
      RefOutcome(body, db, other);
      RefOutcome(handler, Ref(body, db).0, Ref(body, other).0);
    case Atomic(_, scope, _) => RefOutcome(scope, db, other);
    case Discarded(_, scope, _) => RefOutcome(scope, db, other);
    case _ =>
  }

  /** The refinement inside an open transaction, at any depth, for every placement of faults. */
  lemma {:induction false} OpenRun(p: Prog, c: Conn)
    requires c.open && !Swallows(p, c)
    ensures Tracks(p, c)
  {
    match p
    case Then(p0, p1) =>
      OpenRun(p0, c);
      if Run(p0, c).1.Returned? {
        OpenRun(p1, Run(p0, c).0);
      }
    case Catch(body, handler, databaseErrors) =>
      OpenRun(body, c);
      var c0 := Run(body, c).0;
      if Catches(databaseErrors, Run(body, c).1) {
        if c0.open {
          OpenRun(handler, c0);
        } else {
          ClosedRun(handler, c0);
          RefOutcome(handler, c0.db, Ref(body, c.db).0);
        }
      }
    case Atomic(name, scope, faults) =>
      if ValidName(name) && faults.opening.NoFault? {
        var c0 := Savepoint(c, name, NoFault).0;
        OpenRun(scope, c0);
        var (c1, o1) := Run(scope, c0);
        if o1.Raised? {
          UndoNested(c, c1, name, faults);
        } else {
          CloseNested(c, c1, name, faults.closing);
          if !faults.closing.NoFault? {
            UndoNested(c, Close(c1, name, true, faults.closing).0, name, faults);
          }
        }
      }
    case Discarded(name, scope, faults) =>
      if ValidName(name) && faults.opening.NoFault? {
        var c0 := Savepoint(c, name, NoFault).0;
        OpenRun(scope, c0);
        UndoNested(c, Run(scope, c0).0, name, faults);
      }
    case _ =>
  }

  /**
   From a connection with no transaction open: whatever the nesting, the names and
   the faults, if no lost transaction was swallowed then the durable database and the
   raise-or-return result are the reference's, and no transaction is left open.
   */
  lemma {:induction false} ClosedRun(p: Prog, c: Conn)
    requires Wf(c) && !c.open && !Swallows(p, c)
    ensures Run(p, c) == (Conn(Ref(p, c.db).0, Ref(p, c.db).0, false, []), Ref(p, c.db).1)
  {
    match p
    case Then(p0, p1) =>
      ClosedRun(p0, c);
      if Run(p0, c).1.Returned? {
        ClosedRun(p1, Run(p0, c).0);
      }
    case Catch(body, handler, databaseErrors) =>
      ClosedRun(body, c);
      if Catches(databaseErrors, Run(body, c).1) {
        ClosedRun(handler, Run(body, c).0);
      }
    case Atomic(name, scope, faults) =>
      if ValidName(name) && faults.opening.NoFault? {
        OpenRun(scope, c.(open := true));
      }
    case Discarded(name, scope, faults) =>
      if ValidName(name) && faults.opening.NoFault? {
        OpenRun(scope, c.(open := true));
      }
    case _ =>
  }

  /** The outermost scope: raised means nothing became durable, returned means everything kept did. */
  lemma OutermostScope(name: string, scope: Prog, faults: ScopeFaults, c: Conn)
    requires Wf(c) && !c.open && !Swallows(Atomic(name, scope, faults), c)
    ensures var (c', o) := Run(Atomic(name, scope, faults), c);
            && !c'.open && c'.saves == [] && c'.db == c'.durable
            && (o.Raised? ==> c'.durable == c.durable)
            && (o.Returned? ==> Ref(scope, c.db).1.Returned? && c'.durable == Ref(scope, c.db).0)
  {
    ClosedRun(Atomic(name, scope, faults), c);
  }

  // ----- programs that cannot swallow a loss -----

  predicate CleanUndo(faults: ScopeFaults) {
    faults.undoRollback.NoFault? && faults.undoRelease.NoFault?
  }

  /** Statements may fail, but nothing takes the transaction away: no abort, and every undo works. */
  predicate Contained(p: Prog) {
    match p
    case Write(_, _, fault) => !fault.TransactionAborts?
    case Then(p0, p1) => Contained(p0) && Contained(p1)
    case Catch(body, handler, _) => Contained(body) && Contained(handler)
    case Atomic(_, scope, f) =>
      Contained(scope) && !f.opening.TransactionAborts? && !f.closing.TransactionAborts? && CleanUndo(f)
    case Discarded(_, scope, f) => Contained(scope) && !f.opening.TransactionAborts? && CleanUndo(f)
    case _ => true
  }

  lemma UndoClean(c: Conn, c1: Conn, name: string, faults: ScopeFaults)
    requires c.open && c1.open && CleanUndo(faults)
    requires c1.saves == c.saves + [Save(SaveId(name), c.db)] && c1.durable == c.durable
    ensures Undo(c1, name, true, faults) == c
  {
    LastSaveTop(c.saves, Save(SaveId(name), c.db));
    assert c1.saves[..|c.saves| + 1] == c1.saves;
    assert c1.saves[..|c.saves|] == c.saves;
  }

  lemma {:induction false} ContainedKeepsTransaction(p: Prog, c: Conn)
    requires c.open && Contained(p)
    ensures Run(p, c).0.open && !Swallows(p, c)
  {
    match p
    case Then(p0, p1) =>
      ContainedKeepsTransaction(p0, c);
      if Run(p0, c).1.Returned? {
        ContainedKeepsTransaction(p1, Run(p0, c).0);
      }
    case Catch(body, handler, databaseErrors) =>
      ContainedKeepsTransaction(body, c);
      if Catches(databaseErrors, Run(body, c).1) {
        ContainedKeepsTransaction(handler, Run(body, c).0);
      }
    case Atomic(name, scope, faults) =>
      if ValidName(name) && faults.opening.NoFault? {
        var c0 := Savepoint(c, name, NoFault).0;
        ContainedKeepsTransaction(scope, c0);
        OpenRun(scope, c0);
        var (c1, o1) := Run(scope, c0);
        if o1.Returned? {
          CloseNested(c, c1, name, faults.closing);
        }
        UndoClean(c, c1, name, faults);
      }
    case Discarded(name, scope, faults) =>
      if ValidName(name) && faults.opening.NoFault? {
        var c0 := Savepoint(c, name, NoFault).0;
        ContainedKeepsTransaction(scope, c0);
        OpenRun(scope, c0);
        UndoClean(c, Run(scope, c0).0, name, faults);
      }
    case _ =>
  }

  /**
   Inside a transaction, nested scopes with arbitrary, even repeated, names change
   the visible database exactly as the reference does and nothing else: savepoint
   stack, in-transaction flag and durable database are as on entry.
   */
  lemma NestedScopesRefine(p: Prog, c: Conn)
    requires c.open && Contained(p)
    ensures Run(p, c) == (c.(db := Ref(p, c.db).0), Ref(p, c.db).1)
  {
    ContainedKeepsTransaction(p, c);
    OpenRun(p, c);
  }

  /** The same from a connection with no transaction open, handlers of database errors included. */
  lemma ContainedScopesRefine(p: Prog, c: Conn)
    requires Wf(c) && !c.open && Contained(p)
    ensures Run(p, c) == (Conn(Ref(p, c.db).0, Ref(p, c.db).0, false, []), Ref(p, c.db).1)
  {
    ContainedNeverSwallows(p, c);
    ClosedRun(p, c);
  }

  lemma {:induction false} ContainedNeverSwallows(p: Prog, c: Conn)
    requires Wf(c) && !c.open && Contained(p)
    ensures !Swallows(p, c)
  {
    match p
    case Then(p0, p1) =>
      ContainedNeverSwallows(p0, c);
      ClosedRun(p0, c);
      ContainedNeverSwallows(p1, Run(p0, c).0);
    case Catch(body, handler, _) =>
      ContainedNeverSwallows(body, c);
      ClosedRun(body, c);
      ContainedNeverSwallows(handler, Run(body, c).0);
    case Atomic(_, scope, _) => ContainedKeepsTransaction(scope, c.(open := true));
    case Discarded(_, scope, _) => ContainedKeepsTransaction(scope, c.(open := true));
    case _ =>
  }

  // ----- what a shape can do under every placement of faults -----

  const NO_FAULTS := ScopeFaults(NoFault, NoFault, NoFault, NoFault)

  /** The program as it is written: which statements will fail is not part of it. */
  function Shape(p: Prog): Prog {
    match p
    case Write(k, v, _) => Write(k, v, NoFault)
    case Then(p0, p1) => Then(Shape(p0), Shape(p1))
    case Catch(body, handler, databaseErrors) => Catch(Shape(body), Shape(handler), databaseErrors)
    case Atomic(name, scope, _) => Atomic(name, Shape(scope), NO_FAULTS)
    case Discarded(name, scope, _) => Discarded(name, Shape(scope), NO_FAULTS)
    case _ => p
  }

  predicate NoUndoFaults(p: Prog) {
    match p
    case Then(p0, p1) => NoUndoFaults(p0) && NoUndoFaults(p1)
    case Catch(body, handler, _) => NoUndoFaults(body) && NoUndoFaults(handler)
    case Atomic(_, scope, f) => NoUndoFaults(scope) && CleanUndo(f)
    case Discarded(_, scope, f) => NoUndoFaults(scope) && CleanUndo(f)
    case _ => true
  }

  /** `q` is `p` with any faults at all, undo statements included only if those may fail. */
  predicate Placement(q: Prog, p: Prog, undoMayFail: bool) {
    Shape(q) == Shape(p) && (undoMayFail || NoUndoFaults(q))
  }

  lemma {:induction false} ShapeIsPlacement(p: Prog, undoMayFail: bool)
    ensures Placement(Shape(p), p, undoMayFail)
  {
    match p
    case Then(p0, p1) =>
      ShapeIsPlacement(p0, undoMayFail);
      ShapeIsPlacement(p1, undoMayFail);
    case Catch(body, handler, _) =>
      ShapeIsPlacement(body, undoMayFail);
      ShapeIsPlacement(handler, undoMayFail);
    case Atomic(_, scope, _) => ShapeIsPlacement(scope, undoMayFail);
    case Discarded(_, scope, _) => ShapeIsPlacement(scope, undoMayFail);
    case _ =>
  }

  /**
   One way a run can end: whether the enclosing transaction is gone by then, whether
   it left a write (in the transaction, or made durable after the loss), and how
   control leaves.
   */
  datatype Fate = Fate(lost: bool, wrote: bool, outcome: Outcome)

  /** One fate after another; a loss takes the earlier writes with it. */
  function Follow(f: Fate, g: Fate): Fate {
    Fate(g.lost, g.wrote || (f.wrote && f.lost == g.lost), g.outcome)
  }

  /** Fates that go on, on one of the outcomes `on`, with a second program whose fates are given for either start. */
  function Chain(first: set<Fate>, on: set<Outcome>, kept: set<Fate>, gone: set<Fate>): set<Fate> {
    (set f | f in first && f.outcome !in on) +
    (set f, g | f in first && f.outcome in on && g in (if f.lost then gone else kept) :: Follow(f, g))
  }

  function Caught(databaseErrors: bool): set<Outcome> {
    if databaseErrors then {Raised(false), Raised(true)} else {Raised(false)}
  }

  /** After a targeted undo that works, or one that has to give up the whole transaction. */
  function Undone(o: Outcome, undoMayFail: bool): set<Fate> {
    {Fate(false, false, o)} + (if undoMayFail then {Fate(true, false, o)} else {})
  }

  function AtomicExits(f: Fate, nested: bool, undoMayFail: bool): set<Fate> {
    if !nested then
      if f.outcome.Raised? then {Fate(true, f.lost && f.wrote, f.outcome)}
      else {Fate(true, f.wrote, Returned)} + (if f.lost then {} else {Fate(true, false, Raised(true))})
    else if f.lost then {Fate(true, f.wrote, if f.outcome.Raised? then f.outcome else Raised(true))}
    else if f.outcome.Raised? then Undone(f.outcome, undoMayFail)
    else {f, Fate(true, false, Raised(true))} + Undone(Raised(true), undoMayFail)
  }

  function DiscardedExits(f: Fate, nested: bool, undoMayFail: bool): set<Fate> {
    if !nested then {Fate(true, f.lost && f.wrote, f.outcome)}
    else if f.lost then {f}
    else Undone(f.outcome, undoMayFail)
  }

  /** A statement that fails, with or without the transaction. */
  function Failures(lost: bool): set<Fate> {
    {Fate(lost, false, Raised(true)), Fate(true, false, Raised(true))}
  }

  /**
   Every way the program can end, over all faults, started inside a transaction or, with
   `lost`, outside of one. It reads the shape only: no fault of `p` matters.
   */
  function Fates(p: Prog, lost: bool, undoMayFail: bool): set<Fate> {
    match p
    case Skip => {Fate(lost, false, Returned)}
    case Raise => {Fate(lost, false, Raised(false))}
    case Write(_, _, _) => {Fate(lost, true, Returned)} + Failures(lost)
    case Then(p0, p1) =>
      Chain(Fates(p0, lost, undoMayFail), {Returned}, Fates(p1, false, undoMayFail), Fates(p1, true, undoMayFail))
    case Catch(body, handler, databaseErrors) =>
      Chain(Fates(body, lost, undoMayFail), Caught(databaseErrors),
            Fates(handler, false, undoMayFail), Fates(handler, true, undoMayFail))
    case Atomic(name, scope, _) =>
      if !ValidName(name) then {Fate(lost, false, Raised(false))}
      else
        var nested := !lost;
        Failures(lost) + set f, g | f in Fates(scope, false, undoMayFail)
            && g in AtomicExits(f, nested, undoMayFail) :: g
    case Discarded(name, scope, _) =>
      if !ValidName(name) then {Fate(lost, false, Raised(false))}
      else
        var nested := !lost;
        Failures(lost) + set f, g | f in Fates(scope, false, undoMayFail)
            && g in DiscardedExits(f, nested, undoMayFail) :: g
  }

  /** Whenever the transaction is lost, the error gets out and nothing was written after the loss. */
  predicate Escapes(fates: set<Fate>) {
    forall f | f in fates && f.lost :: f.outcome.Raised? && !f.wrote
  }

  predicate Safe(scope: Prog, undoMayFail: bool) {
    Escapes(Fates(scope, false, undoMayFail))
  }

  lemma {:induction false} FatesOfShape(p: Prog, lost: bool, undoMayFail: bool)
    ensures Fates(Shape(p), lost, undoMayFail) == Fates(p, lost, undoMayFail)
  {
    match p
    case Then(p0, p1) =>
      FatesOfShape(p0, lost, undoMayFail);
      FatesOfShape(p1, false, undoMayFail);
      FatesOfShape(p1, true, undoMayFail);
    case Catch(body, handler, _) =>
      FatesOfShape(body, lost, undoMayFail);
      FatesOfShape(handler, false, undoMayFail);
      FatesOfShape(handler, true, undoMayFail);
    case Atomic(_, scope, _) => FatesOfShape(scope, false, undoMayFail);
    case Discarded(_, scope, _) => FatesOfShape(scope, false, undoMayFail);
    case _ =>
  }

  // ----- every run meets one of the fates -----

  /** Leaving a scope whose transaction is gone changes nothing; only RELEASE notices. */
  lemma ExitLost(c: Conn, name: string, nested: bool, faults: ScopeFaults)
    requires Wf(c) && !c.open
    ensures Undo(c, name, nested, faults) == c
    ensures Close(c, name, nested, faults.closing) == (c, !nested)
  {
  }

  /**
   The connection after a program is well formed, and a transaction that is still open is
   exactly as the reference says.
   */
  lemma {:induction false} KeptIsReference(p: Prog, c: Conn)
    requires Wf(c)
    ensures var (c', o) := Run(p, c);
            && Wf(c') && (c'.open ==> c.open && c' == c.(db := Ref(p, c.db).0) && o == Ref(p, c.db).1)
  {
    match p
    case Then(p0, p1) =>
      KeptIsReference(p0, c);
      KeptIsReference(p1, Run(p0, c).0);
    case Catch(body, handler, _) =>
      KeptIsReference(body, c);
      KeptIsReference(handler, Run(body, c).0);
    case Atomic(name, scope, faults) =>
      if ValidName(name) && faults.opening.NoFault? {
        var c0 := Begin(c, name, NoFault).0;
        KeptIsReference(scope, c0);
        LeaveWf(c, Run(scope, c0), name, faults);
      }
    case Discarded(name, scope, faults) =>
      if ValidName(name) && faults.opening.NoFault? {
        var c0 := Begin(c, name, NoFault).0;
        KeptIsReference(scope, c0);
        LeaveWf(c, Run(scope, c0), name, faults);
      }
    case _ =>
  }

  lemma KeptOrClosed(p: Prog, c: Conn)
    requires Wf(c)
    ensures var c' := Run(p, c).0; Wf(c') && (c'.open ==> c.open && c'.durable == c.durable)
  {
    KeptIsReference(p, c);
  }

  /** What a scope's body can leave behind: a lost transaction, or the one it was given with other contents. */
  predicate Body(c: Conn, c1: Conn, name: string) {
    Wf(c) && Wf(c1) && (c1.open ==> c1 == Begin(c, name, NoFault).0.(db := c1.db))
  }

  /** The undo of a kept body restores the entry state, or gives the transaction up. */
  lemma UndoKept(c: Conn, c1: Conn, name: string, faults: ScopeFaults)
    requires Body(c, c1, name) && c1.open
    ensures var u := Undo(c1, name, c.open, faults);
            if c.open && u.open then u == c else u == RolledBack(c)
    ensures c.open && CleanUndo(faults) ==> Undo(c1, name, true, faults) == c
    ensures c.open && faults.undoRollback.StatementFails? ==> Undo(c1, name, true, faults) == RolledBack(c)
  {
    if c.open {
      UndoNested(c, c1, name, faults);
      if CleanUndo(faults) {
        UndoClean(c, c1, name, faults);
      }
    }
  }

  lemma CloseKept(c: Conn, c1: Conn, name: string, faults: ScopeFaults)
    requires Body(c, c1, name) && c1.open
    ensures var (c2, ok) := Close(c1, name, c.open, faults.closing);
            && ok == faults.closing.NoFault?
            && (ok ==> c2 == if c.open then c.(db := c1.db) else Conn(c1.db, c1.db, false, []))
            && (!ok ==> c2 == if faults.closing.TransactionAborts? then RolledBack(c) else c1)
  {
    if c.open {
      CloseNested(c, c1, name, faults.closing);
    }
  }

  /** Leaving a kept `atomic` body, in full. */
  lemma LeaveAtomicKept(c: Conn, end: (Conn, Outcome), name: string, faults: ScopeFaults)
    requires Body(c, end.0, name) && end.0.open
    ensures LeaveAtomic(c, end, name, faults) ==
            if end.1.Raised? then (Undo(end.0, name, c.open, faults), end.1)
            else if faults.closing.TransactionAborts? then (RolledBack(c), Raised(true))
            else if faults.closing.StatementFails? then (Undo(end.0, name, c.open, faults), Raised(true))
            else (if c.open then c.(db := end.0.db) else Conn(end.0.db, end.0.db, false, []), Returned)
  {
    CloseKept(c, end.0, name, faults);
    ExitLost(RolledBack(c), name, c.open, faults);
  }

  lemma LeaveAtomicLost(c: Conn, end: (Conn, Outcome), name: string, faults: ScopeFaults)
    requires Body(c, end.0, name) && !end.0.open
    ensures LeaveAtomic(c, end, name, faults) == (end.0, if c.open && end.1.Returned? then Raised(true) else end.1)
  {
    ExitLost(end.0, name, c.open, faults);
  }

  lemma LeaveWf(c: Conn, end: (Conn, Outcome), name: string, faults: ScopeFaults)
    requires Body(c, end.0, name)
    ensures var (a, o) := LeaveAtomic(c, end, name, faults);
            && Wf(a) && (a.open ==> c.open && end.0.open)
            && (a.open && o.Returned? ==> end.1.Returned? && faults.closing.NoFault? && a == c.(db := end.0.db))
            && (a.open && o.Raised? ==> a == c && o == if end.1.Raised? then end.1 else Raised(true))
            && (a.open && o.Raised? && end.1.Returned? ==> !faults.closing.NoFault?)
    ensures var d := LeaveDiscarded(c, end, name, faults).0; Wf(d) && (d.open ==> c.open && end.0.open && d == c)
  {
    if end.0.open {
      LeaveAtomicKept(c, end, name, faults);
      UndoKept(c, end.0, name, faults);
    } else {
      LeaveAtomicLost(c, end, name, faults);
      ExitLost(end.0, name, c.open, faults);
    }
  }

  /** The run ended as the fate says, and what the fate does not admit to did not happen. */
  predicate Meets(c: Conn, end: (Conn, Outcome), f: Fate) {
    && end.1 == f.outcome && end.0.open == !f.lost
    && (!f.wrote ==> if f.lost then end.0.durable == c.durable else end.0.db == c.db)
  }

  lemma AtomicExitMeets(c: Conn, end: (Conn, Outcome), name: string, faults: ScopeFaults, undoMayFail: bool, g: Fate)
      returns (f: Fate)
    requires Body(c, end.0, name) && Meets(Begin(c, name, NoFault).0, end, g) && (undoMayFail || CleanUndo(faults))
    ensures f in AtomicExits(g, c.open, undoMayFail) && Meets(c, LeaveAtomic(c, end, name, faults), f)
  {
    var (c', o) := LeaveAtomic(c, end, name, faults);
    f := Fate(!c'.open, if g.lost then g.wrote else o.Returned? && g.wrote, o);
    if g.lost {
      LeaveAtomicLost(c, end, name, faults);
    } else {
      LeaveAtomicKept(c, end, name, faults);
      UndoKept(c, end.0, name, faults);
    }
  }

  lemma DiscardedExitMeets(c: Conn, end: (Conn, Outcome), name: string, faults: ScopeFaults, undoMayFail: bool, g: Fate)
      returns (f: Fate)
    requires Body(c, end.0, name) && Meets(Begin(c, name, NoFault).0, end, g) && (undoMayFail || CleanUndo(faults))
    ensures f in DiscardedExits(g, c.open, undoMayFail) && Meets(c, LeaveDiscarded(c, end, name, faults), f)
  {
    f := Fate(!LeaveDiscarded(c, end, name, faults).0.open, g.lost && g.wrote, g.outcome);
    if g.lost {
      ExitLost(end.0, name, c.open, faults);
    } else {
      UndoKept(c, end.0, name, faults);
    }
  }

  lemma {:induction false} RunMeetsFate(p: Prog, c: Conn, undoMayFail: bool) returns (f: Fate)
    requires Wf(c) && (undoMayFail || NoUndoFaults(p))
    ensures f in Fates(p, !c.open, undoMayFail) && Meets(c, Run(p, c), f)
    decreases p, 1
  {
    match p
    case Skip => f := Fate(!c.open, false, Returned);
    case Raise => f := Fate(!c.open, false, Raised(false));
    case Write(_, _, fault) =>
      f := if fault.NoFault? then Fate(!c.open, true, Returned) else FailureFate(c, fault);
    case Then(p0, p1) => f := ChainMeetsFate(p, p0, p1, c, {Returned}, undoMayFail);
    case Catch(body, handler, databaseErrors) => f := ChainMeetsFate(p, body, handler, c, Caught(databaseErrors),
        undoMayFail);
    case Atomic(name, scope, faults) =>
      if ValidName(name) && faults.opening.NoFault? {
        var c0 := Begin(c, name, NoFault).0;
        KeptIsReference(scope, c0);
        var g := RunMeetsFate(scope, c0, undoMayFail);
        f := AtomicExitMeets(c, Run(scope, c0), name, faults, undoMayFail, g);
      } else {
        f := OpeningMeetsFate(p, c, undoMayFail);
      }
    case Discarded(name, scope, faults) =>
      if ValidName(name) && faults.opening.NoFault? {
        var c0 := Begin(c, name, NoFault).0;
        KeptIsReference(scope, c0);
        var g := RunMeetsFate(scope, c0, undoMayFail);
        f := DiscardedExitMeets(c, Run(scope, c0), name, faults, undoMayFail, g);
      } else {
        f := OpeningMeetsFate(p, c, undoMayFail);
      }
  }

  function FailureFate(c: Conn, fault: Fault): Fate {
    Fate(!c.open || fault.TransactionAborts?, false, Raised(true))
  }

  lemma OpeningMeetsFate(p: Prog, c: Conn, undoMayFail: bool) returns (f: Fate)
    requires Wf(c) && (p.Atomic? || p.Discarded?) && (!ValidName(p.name) || !p.faults.opening.NoFault?)
    ensures f in Fates(p, !c.open, undoMayFail) && Meets(c, Run(p, c), f)
  {
    f := if ValidName(p.name) then FailureFate(c, p.faults.opening) else Fate(!c.open, false, Raised(false));
  }

  /** Runs `q1` after `q0` on one of the outcomes `on`, whichever construct says so. */
  function RunOn(q0: Prog, q1: Prog, on: set<Outcome>, c: Conn): (Conn, Outcome) {
    if Run(q0, c).1 in on then Run(q1, Run(q0, c).0) else Run(q0, c)
  }

  lemma {:induction false} ChainMeetsFate(p: Prog, p0: Prog, p1: Prog, c: Conn, on: set<Outcome>, undoMayFail: bool)
      returns (f: Fate)
    requires Wf(c) && (undoMayFail || (NoUndoFaults(p0) && NoUndoFaults(p1))) && p0 < p && p1 < p
    ensures f in Chain(Fates(p0, !c.open, undoMayFail), on, Fates(p1, false, undoMayFail), Fates(p1, true, undoMayFail))
    ensures Meets(c, RunOn(p0, p1, on, c), f)
    decreases p, 0
  {
    var f0 := RunMeetsFate(p0, c, undoMayFail);
    var c0 := Run(p0, c).0;
    KeptOrClosed(p0, c);
    KeptOrClosed(p1, c0);
    var g := RunMeetsFate(p1, c0, undoMayFail);
    f := FollowMeets(c, Run(p0, c), Run(p1, c0), on, f0, g,
                     Fates(p0, !c.open, undoMayFail), Fates(p1, false, undoMayFail), Fates(p1, true, undoMayFail));
  }

  lemma FollowMeets(c: Conn, end: (Conn, Outcome), next: (Conn, Outcome), on: set<Outcome>, f: Fate, g: Fate,
                    first: set<Fate>, kept: set<Fate>, gone: set<Fate>) returns (h: Fate)
    requires f in first && Meets(c, end, f) && g in (if f.lost then gone else kept) && Meets(end.0, next, g)
    requires (next.0.open ==> end.0.open) && (end.0.open ==> end.0.durable == c.durable)
    ensures h in Chain(first, on, kept, gone) && Meets(c, if end.1 in on then next else end, h)
  {
    h := if f.outcome in on then Follow(f, g) else f;
  }

  // ----- every fate is met by some placement -----

  /** The run ends as the fate says, with a write left behind if the fate has one. */
  predicate Ends(end: (Conn, Outcome), f: Fate) {
    end.1 == f.outcome && end.0.open == !f.lost && (f.wrote ==> end.0.db != map[])
  }

  ghost predicate Realizes(q: Prog, lost: bool, f: Fate) {
    forall c | Wf(c) && c.open == !lost :: Ends(Run(q, c), f)
  }

  predicate Mentions(p: Prog, k: string) {
    match p
    case Write(key, _, _) => key == k
    case Then(p0, p1) => Mentions(p0, k) || Mentions(p1, k)
    case Catch(body, handler, _) => Mentions(body, k) || Mentions(handler, k)
    case Atomic(_, scope, _) => Mentions(scope, k)
    case Discarded(_, scope, _) => Mentions(scope, k)
    case _ => false
  }

  /** Keys are never removed, and only those a program mentions are added. */
  lemma {:induction false} RefKeys(p: Prog, db: Db, k: string)
    ensures k in db ==> k in Ref(p, db).0
    ensures k in Ref(p, db).0 ==> k in db || Mentions(p, k)
  {
    match p
    case Then(p0, p1) =>
      RefKeys(p0, db, k);
      RefKeys(p1, Ref(p0, db).0, k);
    case Catch(body, handler, _) =>
      RefKeys(body, db, k);
      RefKeys(handler, Ref(body, db).0, k);
    case Atomic(_, scope, _) => RefKeys(scope, db, k);
    case Discarded(_, scope, _) => RefKeys(scope, db, k);
    case _ =>
  }

  predicate Grown(p: Prog, before: Db, after: Db, k: string) {
    (k in before ==> k in after) && (k in after ==> k in before || Mentions(p, k))
  }

  /** The same of the durable database, which a lost transaction leaves exposed. */
  lemma {:induction false} DurableKeys(p: Prog, c: Conn, k: string)
    requires Wf(c)
    ensures Grown(p, c.durable, Run(p, c).0.durable, k)
    decreases p, 0
  {
    match p
    case Then(p0, p1) =>
      KeptIsReference(p0, c);
      DurableKeys(p0, c, k);
      DurableKeys(p1, Run(p0, c).0, k);
    case Catch(body, handler, _) =>
      KeptIsReference(body, c);
      DurableKeys(body, c, k);
      DurableKeys(handler, Run(body, c).0, k);
    case Atomic(name, scope, faults) =>
      if ValidName(name) && faults.opening.NoFault? {
        ScopeDurableKeys(name, scope, faults, c, k);
        assert Run(p, c) == LeaveAtomic(c, Run(scope, Begin(c, name, NoFault).0), name, faults);
      } else {
        assert Run(p, c).0.durable == c.durable;
      }
    case Discarded(name, scope, faults) =>
      if ValidName(name) && faults.opening.NoFault? {
        ScopeDurableKeys(name, scope, faults, c, k);
        assert Run(p, c) == LeaveDiscarded(c, Run(scope, Begin(c, name, NoFault).0), name, faults);
      } else {
        assert Run(p, c).0.durable == c.durable;
      }
    case _ =>
  }

  lemma {:induction false} ScopeDurableKeys(name: string, scope: Prog, faults: ScopeFaults, c: Conn, k: string)
    requires Wf(c)
    ensures var end := Run(scope, Begin(c, name, NoFault).0);
            && Grown(scope, c.durable, LeaveAtomic(c, end, name, faults).0.durable, k)
            && Grown(scope, c.durable, LeaveDiscarded(c, end, name, faults).0.durable, k)
    decreases scope, 1
  {
    var c0 := Begin(c, name, NoFault).0;
    var end := Run(scope, c0);
    KeptIsReference(scope, c0);
    DurableKeys(scope, c0, k);
    RefKeys(scope, c0.db, k);
    if end.0.open {
      LeaveAtomicKept(c, end, name, faults);
      UndoKept(c, end.0, name, faults);
    } else {
      LeaveAtomicLost(c, end, name, faults);
      ExitLost(end.0, name, c.open, faults);
    }
  }

  lemma WriteStays(p: Prog, c: Conn)
    requires Wf(c) && c.db != map[] && Run(p, c).0.open == c.open
    ensures Run(p, c).0.db != map[]
  {
    var k :| k in c.db;
    KeptIsReference(p, c);
    if c.open {
      RefKeys(p, c.db, k);
    } else {
      DurableKeys(p, c, k);
    }
  }

  lemma {:induction false} Realize(p: Prog, lost: bool, undoMayFail: bool, f: Fate) returns (q: Prog)
    requires f in Fates(p, lost, undoMayFail)
    ensures Placement(q, p, undoMayFail) && Realizes(q, lost, f)
    decreases p, 1
  {
    match p
    case Skip => q := p;
    case Raise => q := p;
    case Write(k, v, _) => q := RealizeWrite(k, v, lost, f);
    case Then(p0, p1) =>
      var q0, q1 := RealizeChain(p, p0, p1, lost, {Returned}, undoMayFail, f);
      q := Then(q0, q1);
      assert forall c :: Run(q, c) == RunOn(q0, q1, {Returned}, c);
    case Catch(body, handler, databaseErrors) =>
      var q0, q1 := RealizeChain(p, body, handler, lost, Caught(databaseErrors), undoMayFail, f);
      q := Catch(q0, q1, databaseErrors);
      assert forall c :: Run(q, c) == RunOn(q0, q1, Caught(databaseErrors), c);
    case Atomic(name, scope, _) =>
      if ValidName(name) && f !in Failures(lost) {
        q := RealizeAtomic(name, scope, lost, undoMayFail, f);
      } else {
        q := RealizeOpening(p, lost, undoMayFail, f);
      }
    case Discarded(name, scope, _) =>
      if ValidName(name) && f !in Failures(lost) {
        q := RealizeDiscarded(name, scope, lost, undoMayFail, f);
      } else {
        q := RealizeOpening(p, lost, undoMayFail, f);
      }
  }

  lemma RealizeWrite(k: string, v: int, lost: bool, f: Fate) returns (q: Prog)
    requires f in {Fate(lost, true, Returned)} + Failures(lost)
    ensures Shape(q) == Write(k, v, NoFault) && NoUndoFaults(q) && Realizes(q, lost, f)
  {
    q := Write(k, v, if f.outcome.Returned? then NoFault else if f.lost then TransactionAborts else StatementFails);
    forall c | Wf(c) && c.open == !lost ensures Ends(Run(q, c), f) {
      assert k in c.db[k := v];
    }
  }

  /** A scope that is never entered: a bad name, or an opening statement that fails. */
  lemma RealizeOpening(p: Prog, lost: bool, undoMayFail: bool, f: Fate) returns (q: Prog)
    requires p.Atomic? || p.Discarded?
    requires if ValidName(p.name) then f in Failures(lost) else f == Fate(lost, false, Raised(false))
    ensures Placement(q, p, undoMayFail) && Realizes(q, lost, f)
  {
    ShapeIsPlacement(p.scope, undoMayFail);
    var faults := NO_FAULTS.(opening := if f.lost then TransactionAborts else StatementFails);
    q := if p.Atomic? then Atomic(p.name, Shape(p.scope), faults) else Discarded(p.name, Shape(p.scope), faults);
  }

  lemma {:induction false} RealizeChain(p: Prog, p0: Prog, p1: Prog, lost: bool, on: set<Outcome>, undoMayFail: bool,
      f: Fate)
    returns (q0: Prog, q1: Prog)
    requires p0 < p && p1 < p
    requires f in Chain(Fates(p0, lost, undoMayFail), on, Fates(p1, false, undoMayFail), Fates(p1, true, undoMayFail))
    ensures Placement(q0, p0, undoMayFail) && Placement(q1, p1, undoMayFail)
    ensures forall c | Wf(c) && c.open == !lost :: Ends(RunOn(q0, q1, on, c), f)
    decreases p, 0
  {
    if f in Fates(p0, lost, undoMayFail) && f.outcome !in on {
      q0 := Realize(p0, lost, undoMayFail, f);
      q1 := Shape(p1);
      ShapeIsPlacement(p1, undoMayFail);
      assert forall c | Wf(c) && c.open == !lost :: Ends(Run(q0, c), f);
    } else {
      var f0, f1 :| f0 in Fates(p0, lost, undoMayFail) && f0.outcome in on
                 && f1 in Fates(p1, f0.lost, undoMayFail) && f == Follow(f0, f1);
      q0 := Realize(p0, lost, undoMayFail, f0);
      q1 := Realize(p1, f0.lost, undoMayFail, f1);
      forall c | Wf(c) && c.open == !lost ensures Ends(RunOn(q0, q1, on, c), f) {
        assert Ends(Run(q0, c), f0);
        KeptIsReference(q0, c);
        var c0 := Run(q0, c).0;
        assert Ends(Run(q1, c0), f1);
        if f.wrote && !f1.wrote {
          WriteStays(q1, c0);
        }
      }
    }
  }

  /** The faults that turn the body's fate into the scope's. */
  function AtomicFaults(g: Fate, f: Fate, nested: bool): ScopeFaults {
    NO_FAULTS.(
      closing := if g.lost || g.outcome == f.outcome then NoFault
                 else if f.lost then TransactionAborts else StatementFails,
      undoRollback := if nested && !g.lost && f.lost && g.outcome.Raised? then StatementFails else NoFault)
  }

  function DiscardedFaults(g: Fate, f: Fate, nested: bool): ScopeFaults {
    NO_FAULTS.(undoRollback := if nested && !g.lost && f.lost then StatementFails else NoFault)
  }

  lemma AtomicExitEnds(c: Conn, end: (Conn, Outcome), name: string, g: Fate, f: Fate)
    requires Body(c, end.0, name) && Ends(end, g) && f in AtomicExits(g, c.open, true)
    ensures Ends(LeaveAtomic(c, end, name, AtomicFaults(g, f, c.open)), f)
  {
    if g.lost {
      LeaveAtomicLost(c, end, name, AtomicFaults(g, f, c.open));
    } else if c.open {
      NestedExitEnds(c, end, name, g, f);
    } else {
      LeaveAtomicKept(c, end, name, AtomicFaults(g, f, false));
      UndoKept(c, end.0, name, AtomicFaults(g, f, false));
    }
  }

  lemma NestedExitEnds(c: Conn, end: (Conn, Outcome), name: string, g: Fate, f: Fate)
    requires Body(c, end.0, name) && Ends(end, g) && c.open && !g.lost && f in AtomicExits(g, true, true)
    ensures Ends(LeaveAtomic(c, end, name, AtomicFaults(g, f, true)), f)
  {
    var faults := AtomicFaults(g, f, true);
    LeaveAtomicKept(c, end, name, faults);
    UndoKept(c, end.0, name, faults);
    if g.outcome.Raised? {
      assert f.outcome == g.outcome && !f.wrote && faults.closing.NoFault?;
    } else if f.outcome.Raised? {
      assert !f.wrote && CleanUndo(faults);
    }
  }

  lemma DiscardedExitEnds(c: Conn, end: (Conn, Outcome), name: string, g: Fate, f: Fate)
    requires Body(c, end.0, name) && Ends(end, g) && f in DiscardedExits(g, c.open, true)
    ensures Ends(LeaveDiscarded(c, end, name, DiscardedFaults(g, f, c.open)), f)
  {
    if g.lost {
      ExitLost(end.0, name, c.open, DiscardedFaults(g, f, c.open));
    } else {
      UndoKept(c, end.0, name, DiscardedFaults(g, f, c.open));
    }
  }

  lemma {:induction false} RealizeAtomic(name: string, scope: Prog, lost: bool, undoMayFail: bool, f: Fate)
      returns (q: Prog)
    requires ValidName(name) && f in Fates(Atomic(name, scope, NO_FAULTS), lost, undoMayFail) && f !in Failures(lost)
    ensures Shape(q) == Atomic(name, Shape(scope), NO_FAULTS) && (undoMayFail || NoUndoFaults(q))
        && Realizes(q, lost, f)
    decreases scope, 2
  {
    var g :| g in Fates(scope, false, undoMayFail) && f in AtomicExits(g, !lost, undoMayFail);
    var s := Realize(scope, false, undoMayFail, g);
    q := Atomic(name, s, AtomicFaults(g, f, !lost));
    forall c | Wf(c) && c.open == !lost ensures Ends(Run(q, c), f) {
      var c0 := Begin(c, name, NoFault).0;
      assert Ends(Run(s, c0), g);
      KeptIsReference(s, c0);
      AtomicExitEnds(c, Run(s, c0), name, g, f);
    }
  }

  lemma {:induction false} RealizeDiscarded(name: string, scope: Prog, lost: bool, undoMayFail: bool, f: Fate)
      returns (q: Prog)
    requires ValidName(name) && f in Fates(Discarded(name, scope, NO_FAULTS), lost, undoMayFail) && f !in Failures(lost)
    ensures Shape(q) == Discarded(name, Shape(scope), NO_FAULTS) && (undoMayFail || NoUndoFaults(q))
        && Realizes(q, lost, f)
    decreases scope, 2
  {
    var g :| g in Fates(scope, false, undoMayFail) && f in DiscardedExits(g, !lost, undoMayFail);
    var s := Realize(scope, false, undoMayFail, g);
    q := Discarded(name, s, DiscardedFaults(g, f, !lost));
    forall c | Wf(c) && c.open == !lost ensures Ends(Run(q, c), f) {
      var c0 := Begin(c, name, NoFault).0;
      assert Ends(Run(s, c0), g);
      KeptIsReference(s, c0);
      DiscardedExitEnds(c, Run(s, c0), name, g, f);
    }
  }

  // ----- all or nothing, exactly -----

  /**
   What `atomic` promises of an outermost scope: raised means nothing became durable,
   returned means every kept write did, and no transaction is left open.
   */
  predicate Promise(name: string, scope: Prog, faults: ScopeFaults, c: Conn) {
    var (c', o) := Run(Atomic(name, scope, faults), c);
    && !c'.open && c'.saves == [] && c'.db == c'.durable
    && (o.Raised? ==> c'.durable == c.durable)
    && (o.Returned? ==> Ref(scope, c.db).1.Returned? && c'.durable == Ref(scope, c.db).0)
  }

  /** A safe shape keeps the promise wherever SQLite fails a statement or aborts the transaction. */
  lemma AllOrNothing(name: string, scope: Prog, faults: ScopeFaults, c: Conn, undoMayFail: bool)
    requires Wf(c) && !c.open && Safe(scope, undoMayFail) && (undoMayFail || NoUndoFaults(scope))
    ensures Promise(name, scope, faults, c)
  {
    if ValidName(name) && faults.opening.NoFault? {
      var c0 := Begin(c, name, NoFault).0;
      var f := RunMeetsFate(scope, c0, undoMayFail);
      KeptIsReference(scope, c0);
      if f.lost {
        LeaveAtomicLost(c, Run(scope, c0), name, faults);
      } else {
        LeaveAtomicKept(c, Run(scope, c0), name, faults);
      }
    }
  }

  /** The scope with writes made before it in the same transaction. */
  function After(writes: seq<(string, int)>, scope: Prog): Prog {
    if writes == [] then scope else Then(Write(writes[0].0, writes[0].1, NoFault), After(writes[1..], scope))
  }

  /** A loss that the second program never gets to see still escapes. */
  lemma ChainEscapes(first: set<Fate>, on: set<Outcome>, kept: set<Fate>, gone: set<Fate>)
    requires Escapes(first) && Escapes(kept) && forall f | f in first && f.lost :: f.outcome !in on
    ensures Escapes(Chain(first, on, kept, gone))
    ensures DatabaseErrors(first) && DatabaseErrors(kept) ==> DatabaseErrors(Chain(first, on, kept, gone))
  {
  }

  /** Only a database error has cost the transaction. */
  predicate DatabaseErrors(fates: set<Fate>) {
    forall f | f in fates && f.lost :: f.outcome == Raised(true)
  }

  lemma {:induction false} AfterIsSafe(writes: seq<(string, int)>, scope: Prog, undoMayFail: bool)
    requires Safe(scope, undoMayFail) && (undoMayFail || NoUndoFaults(scope))
    ensures Safe(After(writes, scope), undoMayFail) && (undoMayFail || NoUndoFaults(After(writes, scope)))
  {
    if writes != [] {
      AfterIsSafe(writes[1..], scope, undoMayFail);
      var write, rest := Write(writes[0].0, writes[0].1, NoFault), After(writes[1..], scope);
      ChainEscapes(Fates(write, false, undoMayFail), {Returned}, Fates(rest, false, undoMayFail),
          Fates(rest, true, undoMayFail));
    }
  }

  lemma {:induction false} LongKeyIsFresh(p: Prog) returns (n: nat)
    ensures forall k: string | |k| >= n :: !Mentions(p, k)
  {
    match p
    case Write(k, _, _) => n := |k| + 1;
    case Then(p0, p1) =>
      var a := LongKeyIsFresh(p0);
      var b := LongKeyIsFresh(p1);
      n := if a < b then b else a;
    case Catch(body, handler, _) =>
      var a := LongKeyIsFresh(body);
      var b := LongKeyIsFresh(handler);
      n := if a < b then b else a;
    case Atomic(_, scope, _) => n := LongKeyIsFresh(scope);
    case Discarded(_, scope, _) => n := LongKeyIsFresh(scope);
    case _ => n := 0;
  }

  const EMPTY := Conn(map[], map[], false, [])

  /** A fate that is not safe is met by some placement which, after at most one write, breaks the promise. */
  lemma UnsafeBreaks(name: string, scope: Prog, undoMayFail: bool) returns (writes: seq<(string, int)>, q: Prog)
    requires ValidName(name) && !Safe(scope, undoMayFail)
    ensures Placement(q, scope, undoMayFail) && !Promise(name, After(writes, q), NO_FAULTS, EMPTY)
  {
    var f :| f in Fates(scope, false, undoMayFail) && f.lost && (f.outcome.Returned? || f.wrote);
    q := Realize(scope, false, undoMayFail, f);
    var c0 := Begin(EMPTY, name, NoFault).0;
    if f.outcome.Returned? {
      var n := LongKeyIsFresh(q);
      var k := seq(n, _ => 'k');
      writes := [(k, 0)];
      LostReturnBreaks(name, q, k, f);
    } else {
      writes := [];
      assert Ends(Run(q, c0), f);
      KeptIsReference(q, c0);
      LeaveAtomicLost(EMPTY, Run(q, c0), name, NO_FAULTS);
    }
  }

  lemma LostReturnBreaks(name: string, q: Prog, k: string, f: Fate)
    requires ValidName(name) && !Mentions(q, k) && Realizes(q, false, f) && f.lost && f.outcome.Returned?
    ensures !Promise(name, After([(k, 0)], q), NO_FAULTS, EMPTY)
  {
    var c0 := Begin(EMPTY, name, NoFault).0;
    var c1 := Put(c0, k, 0, NoFault).0;
    var p := Then(Write(k, 0, NoFault), q);
    assert [(k, 0)][1..] == [] && After([(k, 0)], q) == p;
    assert Ends(Run(q, c1), f);
    DurableKeys(q, c1, k);
    KeptIsReference(q, c1);
    assert Run(p, c0) == Run(q, c1);
    ReturnedLost(name, p, EMPTY);
    RefKeys(q, c1.db, k);
    assert Ref(p, EMPTY.db) == Ref(q, c1.db);
  }

  /** An outermost scope whose body lost the transaction and returned just returns. */
  lemma ReturnedLost(name: string, p: Prog, c: Conn)
    requires Wf(c) && !c.open && ValidName(name)
    requires var end := Run(p, Begin(c, name, NoFault).0); Wf(end.0) && !end.0.open && end.1.Returned?
    ensures Run(Atomic(name, p, NO_FAULTS), c) == Run(p, Begin(c, name, NoFault).0)
  {
    LeaveAtomicLost(c, Run(p, Begin(c, name, NoFault).0), name, NO_FAULTS);
  }

  /**
   Exactly the safe shapes keep the promise: under every placement of faults, after
   every sequence of writes in the same scope and from every database. The shape is
   what a caller can read off the program; the faults are not.
   */
  lemma AllOrNothingExactly(name: string, scope: Prog, undoMayFail: bool)
    ensures (forall writes, q, faults, c | Placement(q, scope, undoMayFail) && Wf(c) && !c.open ::
               Promise(name, After(writes, q), faults, c))
       <==> (ValidName(name) ==> Safe(scope, undoMayFail))
  {
    if ValidName(name) && !Safe(scope, undoMayFail) {
      var writes, q := UnsafeBreaks(name, scope, undoMayFail);
      assert Placement(q, scope, undoMayFail) && Wf(EMPTY) && !Promise(name, After(writes, q), NO_FAULTS, EMPTY);
    } else {
      forall writes, q, faults, c | Placement(q, scope, undoMayFail) && Wf(c) && !c.open
        ensures Promise(name, After(writes, q), faults, c)
      {
        if ValidName(name) {
          FatesOfShape(scope, false, undoMayFail);
          FatesOfShape(q, false, undoMayFail);
          AfterIsSafe(writes, q, undoMayFail);
          AllOrNothing(name, After(writes, q), faults, c, undoMayFail);
        }
      }
    }
  }

  // ----- always rolled back, exactly -----

  /** What `discarded` promises of an outermost scope: the connection and the durable database are as before. */
  predicate LeavesNothing(name: string, scope: Prog, faults: ScopeFaults, c: Conn) {
    Run(Discarded(name, scope, faults), c).0 == c
  }

  /** Nothing is written after the transaction is lost; returning after the loss does no harm here. */
  predicate Harmless(scope: Prog, undoMayFail: bool) {
    forall f | f in Fates(scope, false, undoMayFail) && f.lost :: !f.wrote
  }

  lemma HarmlessLeavesNothing(name: string, scope: Prog, faults: ScopeFaults, c: Conn, undoMayFail: bool)
    requires Wf(c) && !c.open && Harmless(scope, undoMayFail) && (undoMayFail || NoUndoFaults(scope))
    ensures LeavesNothing(name, scope, faults, c)
  {
    if ValidName(name) && faults.opening.NoFault? {
      var c0 := Begin(c, name, NoFault).0;
      var f := RunMeetsFate(scope, c0, undoMayFail);
      KeptIsReference(scope, c0);
      if f.lost {
        ExitLost(Run(scope, c0).0, name, false, faults);
      } else {
        UndoKept(c, Run(scope, c0).0, name, faults);
      }
    }
  }

  /** Exactly the harmless shapes keep that promise, under every placement of faults and from every database. */
  lemma DiscardedExactly(name: string, scope: Prog, undoMayFail: bool)
    ensures (forall q, faults, c | Placement(q, scope, undoMayFail) && Wf(c)
        && !c.open :: LeavesNothing(name, q, faults, c))
       <==> (ValidName(name) ==> Harmless(scope, undoMayFail))
  {
    if ValidName(name) && !Harmless(scope, undoMayFail) {
      var f :| f in Fates(scope, false, undoMayFail) && f.lost && f.wrote;
      var q := Realize(scope, false, undoMayFail, f);
      var c0 := Begin(EMPTY, name, NoFault).0;
      assert Ends(Run(q, c0), f);
      KeptIsReference(q, c0);
      ExitLost(Run(q, c0).0, name, false, NO_FAULTS);
      assert Placement(q, scope, undoMayFail) && Wf(EMPTY) && !LeavesNothing(name, q, NO_FAULTS, EMPTY);
    } else {
      forall q, faults, c | Placement(q, scope, undoMayFail) && Wf(c) && !c.open
          ensures LeavesNothing(name, q, faults, c) {
        if ValidName(name) {
          FatesOfShape(scope, false, undoMayFail);
          FatesOfShape(q, false, undoMayFail);
          HarmlessLeavesNothing(name, q, faults, c, undoMayFail);
        }
      }
    }
  }

  // ----- shapes that let every loss out -----

  predicate HasScope(p: Prog) {
    match p
    case Then(p0, p1) => HasScope(p0) || HasScope(p1)
    case Catch(body, handler, _) => HasScope(body) || HasScope(handler)
    case Atomic(_, _, _) => true
    case Discarded(_, _, _) => true
    case _ => false
  }

  /**
   Inside a scope, handlers let database errors through. If undo statements may fail,
   no handler there guards a scope and no `discarded` block is nested.
   */
  predicate Propagates(p: Prog, inside: bool, undoMayFail: bool) {
    match p
    case Then(p0, p1) => Propagates(p0, inside, undoMayFail) && Propagates(p1, inside, undoMayFail)
    case Catch(body, handler, databaseErrors) =>
      && Propagates(body, inside, undoMayFail) && Propagates(handler, inside, undoMayFail)
      && (inside ==> !databaseErrors && !(undoMayFail && HasScope(body)))
    case Atomic(_, scope, _) => Propagates(scope, true, undoMayFail)
    case Discarded(_, scope, _) => Propagates(scope, true, undoMayFail) && !(inside && undoMayFail)
    case _ => true
  }

  /** Such a shape is safe; with working undo statements only a database error can have cost the transaction. */
  lemma {:induction false} LossIsDatabaseError(p: Prog, undoMayFail: bool)
    requires Propagates(p, true, undoMayFail)
    ensures Safe(p, undoMayFail)
    ensures !(undoMayFail && HasScope(p)) ==> DatabaseErrors(Fates(p, false, undoMayFail))
  {
    match p
    case Then(p0, p1) =>
      LossIsDatabaseError(p0, undoMayFail);
      LossIsDatabaseError(p1, undoMayFail);
      ChainEscapes(Fates(p0, false, undoMayFail), {Returned}, Fates(p1, false, undoMayFail),
          Fates(p1, true, undoMayFail));
    case Catch(body, handler, databaseErrors) =>
      LossIsDatabaseError(body, undoMayFail);
      LossIsDatabaseError(handler, undoMayFail);
      ChainEscapes(Fates(body, false, undoMayFail), Caught(databaseErrors),
                   Fates(handler, false, undoMayFail), Fates(handler, true, undoMayFail));
    case Atomic(_, scope, _) =>
      LossIsDatabaseError(scope, undoMayFail);
      forall f | f in Fates(scope, false, undoMayFail) ensures Escapes(AtomicExits(f, true, undoMayFail)) {
      }
    case Discarded(_, scope, _) =>
      LossIsDatabaseError(scope, undoMayFail);
    case _ =>
  }

  /** Such a shape never swallows a loss either, so that its runs are the reference's, error for error. */
  lemma {:induction false} PropagatesNeverSwallows(p: Prog, c: Conn, undoMayFail: bool)
    requires Propagates(p, c.open, undoMayFail) && (undoMayFail || NoUndoFaults(p)) && Wf(c)
    ensures !Swallows(p, c)
  {
    match p
    case Then(p0, p1) =>
      PropagatesNeverSwallows(p0, c, undoMayFail);
      StaysOrRaises(p0, c);
      if Run(p0, c).1.Returned? {
        PropagatesNeverSwallows(p1, Run(p0, c).0, undoMayFail);
      }
    case Catch(body, handler, databaseErrors) =>
      PropagatesNeverSwallows(body, c, undoMayFail);
      StaysOrRaises(body, c);
      if Catches(databaseErrors, Run(body, c).1) {
        if c.open && !Run(body, c).0.open {
          LossIsDatabaseError(body, undoMayFail);
          var f := RunMeetsFate(body, c, undoMayFail);
        } else {
          PropagatesNeverSwallows(handler, Run(body, c).0, undoMayFail);
        }
      }
    case Atomic(name, scope, faults) =>
      if ValidName(name) && faults.opening.NoFault? {
        PropagatesNeverSwallows(scope, Begin(c, name, NoFault).0, undoMayFail);
      }
    case Discarded(name, scope, faults) =>
      if ValidName(name) && faults.opening.NoFault? {
        var c0 := Begin(c, name, NoFault).0;
        PropagatesNeverSwallows(scope, c0, undoMayFail);
        OpenRun(scope, c0);
        if c.open && Run(scope, c0).0.open {
          UndoClean(c, Run(scope, c0).0, name, faults);
        }
      }
    case _ =>
  }

  /** Between two steps of a sequence the connection is well formed and still in the same mode. */
  lemma StaysOrRaises(p: Prog, c: Conn)
    requires Wf(c) && !Swallows(p, c)
    ensures Wf(Run(p, c).0)
    ensures Run(p, c).1.Returned? ==> Run(p, c).0.open == c.open
    ensures !c.open ==> !Run(p, c).0.open
  {
    if c.open {
      OpenRun(p, c);
    } else {
      ClosedRun(p, c);
    }
  }

  // ----- two unsafe shapes, run -----

  function SwallowedAbort(k: string, v: int): Prog {
    Then(Catch(Write(k, v, TransactionAborts), Skip, true), Then(Write(k, v, NoFault), Raise))
  }

  /** A handler that swallows an abort: the scope raises, and yet its last write is durable. */
  lemma SwallowedAbortBreaksAtomicity(name: string, k: string, v: int, c: Conn)
    requires Wf(c) && !c.open && ValidName(name)
    ensures var p := Atomic(name, SwallowedAbort(k, v), NO_FAULTS);
            Run(p, c).1.Raised? && Run(p, c).0.durable == c.durable[k := v]
  {
    var c0 := Begin(c, name, NoFault).0;
    var lost := RolledBack(c0);
    var bad, good := Write(k, v, TransactionAborts), Write(k, v, NoFault);
    assert Run(bad, c0) == (lost, Raised(true));
    var abort := Catch(bad, Skip, true);
    assert Run(abort, c0) == Run(Skip, lost) == (lost, Returned);
    var written := Put(lost, k, v, NoFault).0;
    assert Run(good, lost) == (written, Returned);
    var rest := Then(good, Raise);
    assert Run(rest, lost) == Run(Raise, written) == (written, Raised(false));
    assert Run(Then(abort, rest), c0) == Run(rest, lost);
    var p := Atomic(name, Then(abort, rest), NO_FAULTS);
    assert Run(p, c) == (Undo(written, name, false, NO_FAULTS), Raised(false));
  }

  lemma SwallowedAbortIsUnsafe(k: string, v: int)
    ensures !Safe(SwallowedAbort(k, v), false)
  {
    if Safe(SwallowedAbort(k, v), false) {
      assert NoUndoFaults(Skip) && NoUndoFaults(Write(k, v, TransactionAborts));
      assert NoUndoFaults(Catch(Write(k, v, TransactionAborts), Skip, true));
      assert NoUndoFaults(Raise) && NoUndoFaults(Write(k, v, NoFault));
      assert NoUndoFaults(Then(Write(k, v, NoFault), Raise));
      SwallowedAbortBreaksAtomicity("s", k, v, EMPTY);
      assert k in EMPTY.durable[k := v];
      AllOrNothing("s", SwallowedAbort(k, v), NO_FAULTS, EMPTY, false);
    }
  }

  /** A probe whose ROLLBACK TO fails, after a write. */
  function HiddenUndo(probe: string, body: Prog, k: string, v: int): Prog {
    Then(Write(k, v, NoFault), Discarded(probe, body, NO_FAULTS.(undoRollback := StatementFails)))
  }

  /**
   `_undo` hides its own failure: a nested `discarded` probe that returns normally
   but whose ROLLBACK TO fails makes the enclosing `atomic` return normally although
   the write before the probe is lost.
   */
  lemma DiscardedUndoFailureLosesWrites(outer: string, probe: string, body: Prog, k: string, v: int, c: Conn)
    requires Wf(c) && !c.open && ValidName(outer) && ValidName(probe)
    requires Contained(body) && Ref(body, c.db[k := v]).1.Returned?
    ensures Run(Atomic(outer, HiddenUndo(probe, body, k, v), NO_FAULTS), c) == (c, Returned)
  {
    var c0 := Begin(c, outer, NoFault).0;
    var c1 := Put(c0, k, v, NoFault).0;
    ProbeLosesAll(probe, body, c1);
    assert Run(HiddenUndo(probe, body, k, v), c0) == (RolledBack(c1), Returned);
    ReturnedLost(outer, HiddenUndo(probe, body, k, v), c);
  }

  lemma ProbeLosesAll(probe: string, body: Prog, c1: Conn)
    requires c1.open && ValidName(probe) && Contained(body) && Ref(body, c1.db).1.Returned?
    ensures Run(Discarded(probe, body, NO_FAULTS.(undoRollback := StatementFails)), c1) == (RolledBack(c1), Returned)
  {
    NestedScopesRefine(body, Savepoint(c1, probe, NoFault).0);
  }

  /** So no probe that can return is safe once undo statements may fail, though it is while they work. */
  lemma DiscardedUndoIsUnsafe(probe: string, body: Prog, k: string, v: int)
    requires ValidName(probe) && Contained(body) && Ref(body, map[]).1.Returned?
    ensures !Safe(HiddenUndo(probe, body, k, v), true)
    ensures Propagates(body, true, false) ==> Safe(HiddenUndo(probe, body, k, v), false)
  {
    RefOutcome(body, map[], map[k := v]);
    if Safe(HiddenUndo(probe, body, k, v), true) {
      DiscardedUndoFailureLosesWrites("s", probe, body, k, v, EMPTY);
      AllOrNothing("s", HiddenUndo(probe, body, k, v), NO_FAULTS, EMPTY, true);
      var lost := Discarded(probe, body, NO_FAULTS.(undoRollback := StatementFails));
      RefKeys(lost, EMPTY.db[k := v], k);
      assert Ref(HiddenUndo(probe, body, k, v), EMPTY.db) == Ref(lost, EMPTY.db[k := v]);
    }
    if Propagates(body, true, false) {
      LossIsDatabaseError(HiddenUndo(probe, body, k, v), false);
    }
  }

  // ----- the connection object -----

  class Connection {
    var db: Db
    var durable: Db
    var inTransaction: bool
    var saves: seq<Save>

    ghost function View(): Conn
      reads this
    {
      Conn(db, durable, inTransaction, saves)
    }

    constructor (durable: Db)
      ensures View() == Conn(durable, durable, false, [])
    {
      this.durable, db, inTransaction, saves := durable, durable, false, [];
    }

    /** `_begin`: true when the scope is nested; `ok` is false when the statement raised. */
    method OpenScope(name: string, fault: Fault) returns (nested: bool, ok: bool)
      modifies this
      ensures nested == old(inTransaction)
      ensures (View(), ok) == Begin(old(View()), name, fault)
    {
      nested := inTransaction;
      ok := fault.NoFault?;
      if fault.TransactionAborts? {
        RollbackAll();
      } else if ok {
        if nested {
          saves := saves + [Save(SaveId(name), db)];
        } else {
          inTransaction := true;
        }
      }
    }

    method RollbackAll()
      modifies this
      ensures View() == RolledBack(old(View()))
    {
      db, inTransaction, saves := durable, false, [];
    }

    method FindSave(id: string) returns (k: int)
      ensures k == LastSave(saves, id)
    {
      k := |saves| - 1;
      while k >= 0 && saves[k].id != id
        invariant -1 <= k < |saves|
        invariant forall j | k < j < |saves| :: saves[j].id != id
      {
        k := k - 1;
      }
    }

    method ReleaseSave(name: string, fault: Fault) returns (ok: bool)
      modifies this
      ensures (View(), ok) == Release(old(View()), name, fault)
    {
      var k := FindSave(SaveId(name));
      ok := fault.NoFault? && k >= 0;
      if fault.TransactionAborts? {
        RollbackAll();
      } else if ok {
        saves := saves[..k];
      }
    }

    method RollbackToSave(name: string, fault: Fault) returns (ok: bool)
      modifies this
      ensures (View(), ok) == RollbackTo(old(View()), name, fault)
    {
      var k := FindSave(SaveId(name));
      ok := fault.NoFault? && k >= 0;
      if fault.TransactionAborts? {
        RollbackAll();
      } else if ok {
        db, saves := saves[k].db, saves[..k + 1];
      }
    }

    /** `_undo`: targeted statements first, the connection-level rollback as the fallback. */
    method UndoScope(name: string, nested: bool, faults: ScopeFaults)
      modifies this
      ensures View() == Undo(old(View()), name, nested, faults)
    {
      if nested {
        var ok := RollbackToSave(name, faults.undoRollback);
        if ok {
          ok := ReleaseSave(name, faults.undoRelease);
        }
        if ok {
          return;
        }
      }
      if inTransaction {
        RollbackAll();
      }
    }

    method CloseScope(name: string, nested: bool, fault: Fault) returns (ok: bool)
      modifies this
      ensures (View(), ok) == Close(old(View()), name, nested, fault)
    {
      if nested {
        ok := ReleaseSave(name, fault);
      } else if inTransaction {
        ok := fault.NoFault?;
        if ok {
          durable, inTransaction, saves := db, false, [];
        } else if fault.TransactionAborts? {
          RollbackAll();
        }
      } else {
        ok := true;
      }
    }

    /** Runs client code, entering and leaving the two context managers as they nest. */
    method Execute(p: Prog) returns (o: Outcome)
      modifies this
      ensures (View(), o) == Run(p, old(View()))
      decreases p
    {
      match p
      case Skip => o := Returned;
      case Raise => o := Raised(false);
      case Write(k, v, fault) =>
        if fault.NoFault? {
          db := db[k := v];
          if !inTransaction {
            durable := db;
          }
          return Returned;
        }
        if fault.TransactionAborts? {
          RollbackAll();
        }
        o := Raised(true);
      case Then(p0, p1) =>
        o := Execute(p0);
        if o.Returned? {
          o := Execute(p1);
        }
      case Catch(body, handler, databaseErrors) =>
        o := Execute(body);
        if Catches(databaseErrors, o) {
          o := Execute(handler);
        }
      case Atomic(name, scope, faults) =>
        if !ValidName(name) {
          return Raised(false);
        }
        var nested, started := OpenScope(name, faults.opening);
        if !started {
          return Raised(true);
        }
        o := Execute(scope);
        if o.Returned? {
          var done := CloseScope(name, nested, faults.closing);
          if done {
            return Returned;
          }
          o := Raised(true);
        }
        UndoScope(name, nested, faults);
      case Discarded(name, scope, faults) =>
        if !ValidName(name) {
          return Raised(false);
        }
        var nested, started := OpenScope(name, faults.opening);
        if !started {
          return Raised(true);
        }
        o := Execute(scope);
        UndoScope(name, nested, faults);
    }
  }
}
