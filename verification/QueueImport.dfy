/**
 The two-pass queue importer: goals before the tasks that name them, parents before
 children, everything found already present left alone. A dry run plans instead of
 writing.
 */
module QueueImport {

  datatype Option<+T> = None | Some(value: T)

  datatype GoalEntry = GoalEntry(ref: string, title: string, company: string, longTerm: bool, parent: Option<string>)

  datatype TaskEntry = TaskEntry(
    ref: string, owner: Option<string>, goalRef: Option<string>, parentRef: Option<string>, evidence: Option<string>)

  /** How the store takes a new goal: accepted, accepted but the owner column refused, or refused. */
  datatype GoalVerdict = Accepted | OwnerRefused | Refused

  /** Whom a row of the evidence table belongs to. */
  datatype Claim = Unattributed | OfTask(id: string)

  /** Goals by company id and title, cards by stored reference, and the cards that have none. */
  datatype Db = Db(
    goals: map<(string, string), string>,
    tasks: map<string, string>,
    unreferenced: seq<string>,
    evidence: map<string, Claim>,
    verified: set<string>)

  /**
   The surroundings of a run: the company ids and owners in force, what the store says
   of each entry, and how it normalizes a reference (blank to nothing, the rest to one
   canonical spelling).
   */
  datatype World = World(
    companies: map<string, string>,
    owners: set<string>,
    goalVerdict: GoalEntry -> GoalVerdict,
    taskAccepted: TaskEntry -> bool,
    verifies: TaskEntry -> bool,
    norm: string -> Option<string>,
    newGoalId: GoalEntry -> string,
    newTaskId: TaskEntry -> string)

  /** The lists of an `ImportResult`. */
  datatype Report = Report(created: seq<string>, skipped: seq<string>, planned: seq<string>, refused: seq<string>)

  datatype Progress = Progress(
    db: Db, goalIds: map<string, string>, taskIds: map<string, string>, goals: Report, tasks: Report,
    repairs: seq<string>)

  const NOTHING := Report([], [], [], [])

  function Start(db: Db): Progress {
    Progress(db, map[], map[], NOTHING, NOTHING, [])
  }

  predicate Has(ref: Option<string>, ids: map<string, string>) {
    ref.Some? ==> ref.value in ids
  }

  // ----- what happens to an entry -----

  datatype Case =
    | Found(id: string)      // already there: left alone
    | Inadmissible           // a company, owner, goal or parent it names is missing
    | Planned                // would be created
    | Turned                 // the store refuses it
    | Made(id: string, complete: bool)   // created; `complete` is false if a follow-up write was refused

  function Noted(r: Report, c: Case, ref: string): Report {
    match c
    case Found(_) => r.(skipped := r.skipped + [ref])
    case Planned => r.(planned := r.planned + [ref])
    case Made(_, complete) => if complete then r.(created := r.created + [ref]) else r.(refused := r.refused + [ref])
    case _ => r.(refused := r.refused + [ref])
  }

  function IdsAfter(ids: map<string, string>, c: Case, ref: string): map<string, string> {
    match c
    case Found(id) => ids[ref := id]
    case Planned => ids[ref := "(dry-run:" + ref + ")"]
    case Made(id, _) => ids[ref := id]
    case _ => ids
  }

  // ----- goals -----

  function GoalKey(w: World, e: GoalEntry): (string, string)
    requires e.company in w.companies
  {
    (w.companies[e.company], e.title)
  }

  function GoalCase(w: World, dryRun: bool, goals: map<(string, string), string>, ids: map<string, string>,
                    e: GoalEntry): Case
  {
    if e.company !in w.companies then Inadmissible
    else if GoalKey(w, e) in goals then Found(goals[GoalKey(w, e)])
    else if !Has(e.parent, ids) then Inadmissible
    else if dryRun then Planned
    else if w.goalVerdict(e).Refused? then Turned
    else Made(w.newGoalId(e), w.goalVerdict(e).Accepted?)
  }

  function GoalsAfter(w: World, goals: map<(string, string), string>, c: Case, e: GoalEntry)
    : map<(string, string), string>
  {
    if c.Made? && e.company in w.companies then goals[GoalKey(w, e) := c.id] else goals
  }

  function GoalStep(w: World, dryRun: bool, s: Progress, e: GoalEntry): Progress {
    var c := GoalCase(w, dryRun, s.db.goals, s.goalIds, e);
    s.(db := s.db.(goals := GoalsAfter(w, s.db.goals, c, e)), goalIds := IdsAfter(s.goalIds, c, e.ref),
       goals := Noted(s.goals, c, e.ref))
  }

  function Goals(w: World, dryRun: bool, s: Progress, entries: seq<GoalEntry>): Progress
    decreases |entries|
  {
    if entries == [] then s else Goals(w, dryRun, GoalStep(w, dryRun, s, entries[0]), entries[1..])
  }

  // ----- tasks -----

  /** The evidence row is already claimed by another card, or parked by hand without one. */
  predicate Conflicting(db: Db, e: TaskEntry, id: string) {
    e.evidence.Some? && e.evidence.value in db.evidence && db.evidence[e.evidence.value] != OfTask(id)
  }

  /** `_reconcile_baseline`: attach the authored evidence unless another card holds it, then verify the card. */
  function Reconciled(w: World, db: Db, e: TaskEntry, id: string): Db {
    if e.evidence.None? || Conflicting(db, e, id) then db
    else db.(evidence := db.evidence[e.evidence.value := OfTask(id)],
             verified := if w.verifies(e) then db.verified + {id} else db.verified)
  }

  predicate ReconcileRaises(w: World, db: Db, e: TaskEntry, id: string) {
    Conflicting(db, e, id) || (e.evidence.Some? && id !in db.verified && !w.verifies(e))
  }

  /** The checks between "not there yet" and the insert. */
  predicate Admissible(w: World, refs: set<string>, goalIds: map<string, string>, taskIds: map<string, string>,
                       e: TaskEntry)
  {
    && (e.owner.Some? ==> e.owner.value in w.owners)
    && Has(e.goalRef, goalIds)
    && (e.parentRef.Some? ==> e.parentRef.value in refs)
    && Has(e.parentRef, taskIds)
  }

  /** The insert fails on a reference that is already stored, even under another spelling. */
  predicate Insertable(w: World, tasks: map<string, string>, e: TaskEntry) {
    w.taskAccepted(e) && (w.norm(e.ref).Some? ==> w.norm(e.ref).value !in tasks)
  }

  function TaskCase(w: World, dryRun: bool, refs: set<string>, s: Progress, e: TaskEntry): Case {
    if e.ref in s.db.tasks then Found(s.db.tasks[e.ref])
    else if !Admissible(w, refs, s.goalIds, s.taskIds, e) then Inadmissible
    else if dryRun then Planned
    else if !Insertable(w, s.db.tasks, e) then Turned
    else Made(w.newTaskId(e), true)
  }

  function Inserted(w: World, db: Db, e: TaskEntry, id: string): Db {
    if w.norm(e.ref).Some? then db.(tasks := db.tasks[w.norm(e.ref).value := id])
    else db.(unreferenced := db.unreferenced + [id])
  }

  function DbAfter(w: World, dryRun: bool, db: Db, c: Case, e: TaskEntry): Db {
    if c.Made? then Reconciled(w, Inserted(w, db, e, c.id), e, c.id)
    else if c.Found? && !dryRun then Reconciled(w, db, e, c.id)
    else db
  }

  function RepairsAfter(w: World, dryRun: bool, repairs: seq<string>, db: Db, c: Case, e: TaskEntry): seq<string> {
    if !c.Found? || dryRun || e.evidence.None? || Conflicting(db, e, c.id) then repairs
    else
      repairs + (if e.evidence.value !in db.evidence then [e.ref] else [])
      + (if c.id !in db.verified && w.verifies(e) then [e.ref] else [])
  }

  function TaskStep(w: World, dryRun: bool, refs: set<string>, s: Progress, e: TaskEntry): Progress {
    var c := TaskCase(w, dryRun, refs, s, e);
    var raises := (c.Made? || (c.Found? && !dryRun)) && ReconcileRaises(w, s.db, e, c.id);
    var noted := Noted(s.tasks, c, e.ref);
    s.(db := DbAfter(w, dryRun, s.db, c, e), taskIds := IdsAfter(s.taskIds, c, e.ref),
       tasks := if raises then noted.(refused := noted.refused + [e.ref]) else noted,
       repairs := RepairsAfter(w, dryRun, s.repairs, s.db, c, e))
  }

  function Tasks(w: World, dryRun: bool, refs: set<string>, s: Progress, entries: seq<TaskEntry>): Progress
    decreases |entries|
  {
    if entries == [] then s else Tasks(w, dryRun, refs, TaskStep(w, dryRun, refs, s, entries[0]), entries[1..])
  }

  // ----- a whole run -----

  datatype File = File(goals: seq<GoalEntry>, tasks: seq<TaskEntry>)

  /** The entries with this key, in their order. */
  function Where<T>(entries: seq<T>, late: T -> bool, key: bool): seq<T> {
    if entries == [] then []
    else
      var last := entries[|entries| - 1];
      Where(entries[..|entries| - 1], late, key) + if late(last) == key then [last] else []
  }

  /** `sorted` by a truth value: a stable sort that puts the false ones first. */
  function Sorted<T>(entries: seq<T>, late: T -> bool): seq<T> {
    Where(entries, late, false) + Where(entries, late, true)
  }

  /** Long-term goals first. */
  function OrderedGoals(entries: seq<GoalEntry>): seq<GoalEntry> {
    Sorted(entries, (e: GoalEntry) => !e.longTerm)
  }

  /** Parentless tasks first. */
  function OrderedTasks(entries: seq<TaskEntry>): seq<TaskEntry> {
    Sorted(entries, (e: TaskEntry) => e.parentRef.Some?)
  }

  function Refs(entries: seq<TaskEntry>): set<string> {
    set e | e in entries :: e.ref
  }

  function Import(w: World, dryRun: bool, db: Db, f: File): Progress {
    Tasks(w, dryRun, Refs(f.tasks), Goals(w, dryRun, Start(db), OrderedGoals(f.goals)), OrderedTasks(f.tasks))
  }

  // ----- the code: loops that fill the maps and lists -----

  class Importer {
    const w: World
    var db: Db
    var goalIds: map<string, string>
    var taskIds: map<string, string>
    var goals: Report
    var tasks: Report
    var repairs: seq<string>

    ghost function View(): Progress
      reads this
    {
      Progress(db, goalIds, taskIds, goals, tasks, repairs)
    }

    constructor (w: World, db: Db)
      ensures this.w == w && View() == Start(db)
    {
      this.w, this.db, goalIds, taskIds, goals, tasks, repairs := w, db, map[], map[], NOTHING, NOTHING, [];
    }

    /** The body of the goal loop; every `return` is a `continue` there. */
    method ImportGoal(e: GoalEntry, dryRun: bool)
      modifies this
      ensures View() == GoalStep(w, dryRun, old(View()), e)
    {
      if e.company !in w.companies {
        goals := goals.(refused := goals.refused + [e.ref]);
        return;
      }
      var key := (w.companies[e.company], e.title);
      if key in db.goals {
        goalIds := goalIds[e.ref := db.goals[key]];
        goals := goals.(skipped := goals.skipped + [e.ref]);
        return;
      }
      if e.parent.Some? && e.parent.value !in goalIds {
        goals := goals.(refused := goals.refused + [e.ref]);
        return;
      }
      if dryRun {
        goalIds := goalIds[e.ref := "(dry-run:" + e.ref + ")"];
        goals := goals.(planned := goals.planned + [e.ref]);
        return;
      }
      var verdict := w.goalVerdict(e);
      if verdict.Refused? {
        goals := goals.(refused := goals.refused + [e.ref]);
        return;
      }
      var id := w.newGoalId(e);
      db := db.(goals := db.goals[key := id]);
      goalIds := goalIds[e.ref := id];
      if verdict.OwnerRefused? {
        goals := goals.(refused := goals.refused + [e.ref]);
        return;
      }
      goals := goals.(created := goals.created + [e.ref]);
    }

    method ImportGoals(entries: seq<GoalEntry>, dryRun: bool)
      modifies this
      ensures View() == Goals(w, dryRun, old(View()), entries)
    {
      for k := 0 to |entries|
        invariant Goals(w, dryRun, View(), entries[k..]) == Goals(w, dryRun, old(View()), entries)
      {
        assert entries[k..][1..] == entries[k + 1..];
        ImportGoal(entries[k], dryRun);
      }
    }

    /** `_reconcile_baseline`; `raised` is a conflict, or a verification that was refused. */
    method ReconcileBaseline(e: TaskEntry, id: string, recordRepairs: bool) returns (raised: bool)
      modifies this`db, this`repairs
      ensures db == Reconciled(w, old(db), e, id) && raised == ReconcileRaises(w, old(db), e, id)
      ensures repairs == if recordRepairs then RepairsAfter(w, false, old(repairs), old(db), Found(id), e)
          else old(repairs)
    {
      if e.evidence.None? {
        return false;
      }
      var row := e.evidence.value;
      if row in db.evidence && db.evidence[row] != OfTask(id) {
        return true;
      }
      if row !in db.evidence {
        db := db.(evidence := db.evidence[row := OfTask(id)]);
        if recordRepairs {
          repairs := repairs + [e.ref];
        }
      }
      if id !in db.verified {
        if !w.verifies(e) {
          return true;
        }
        db := db.(verified := db.verified + {id});
        if recordRepairs {
          repairs := repairs + [e.ref];
        }
      }
      return false;
    }

    method RefuseTask(e: TaskEntry)
      modifies this`tasks
      ensures tasks == old(tasks).(refused := old(tasks).refused + [e.ref])
    {
      tasks := tasks.(refused := tasks.refused + [e.ref]);
    }

    /** The body of the task loop; every `return` is a `continue` there. */
    method ImportTask(e: TaskEntry, dryRun: bool, refs: set<string>)
      modifies this
      ensures View() == TaskStep(w, dryRun, refs, old(View()), e)
    {
      if e.ref in db.tasks {
        SkipTask(e, dryRun, refs);
        return;
      }
      if e.owner.Some? && e.owner.value !in w.owners {
        RefuseTask(e);
        return;
      }
      if e.goalRef.Some? && e.goalRef.value !in goalIds {
        RefuseTask(e);
        return;
      }
      if e.parentRef.Some? && (e.parentRef.value !in refs || e.parentRef.value !in taskIds) {
        RefuseTask(e);
        return;
      }
      if dryRun {
        taskIds := taskIds[e.ref := "(dry-run:" + e.ref + ")"];
        tasks := tasks.(planned := tasks.planned + [e.ref]);
        return;
      }
      var stored := w.norm(e.ref);
      if !w.taskAccepted(e) || (stored.Some? && stored.value in db.tasks) {
        RefuseTask(e);
        return;
      }
      CreateTask(e, stored, refs);
    }

    /** A card that is already there: adopt its id and, in a real run, reconcile its evidence. */
    method SkipTask(e: TaskEntry, dryRun: bool, ghost refs: set<string>)
      requires e.ref in db.tasks
      modifies this
      ensures View() == TaskStep(w, dryRun, refs, old(View()), e)
    {
      var id := db.tasks[e.ref];
      taskIds := taskIds[e.ref := id];
      tasks := tasks.(skipped := tasks.skipped + [e.ref]);
      if !dryRun {
        var raised := ReconcileBaseline(e, id, true);
        if raised {
          RefuseTask(e);
        }
      }
    }

    /** The insert and what follows it. */
    method CreateTask(e: TaskEntry, stored: Option<string>, ghost refs: set<string>)
      requires stored == w.norm(e.ref) && TaskCase(w, false, refs, View(), e) == Made(w.newTaskId(e), true)
      modifies this
      ensures View() == TaskStep(w, false, refs, old(View()), e)
    {
      var id := w.newTaskId(e);
      if stored.Some? {
        db := db.(tasks := db.tasks[stored.value := id]);
      } else {
        db := db.(unreferenced := db.unreferenced + [id]);
      }
      taskIds := taskIds[e.ref := id];
      tasks := tasks.(created := tasks.created + [e.ref]);
      var raised := ReconcileBaseline(e, id, false);
      if raised {
        RefuseTask(e);
      }
    }

    method ImportTasks(entries: seq<TaskEntry>, dryRun: bool, refs: set<string>)
      modifies this
      ensures View() == Tasks(w, dryRun, refs, old(View()), entries)
    {
      for k := 0 to |entries|
        invariant Tasks(w, dryRun, refs, View(), entries[k..]) == Tasks(w, dryRun, refs, old(View()), entries)
      {
        assert entries[k..][1..] == entries[k + 1..];
        ImportTask(entries[k], dryRun, refs);
      }
    }

    /** `run_import` past the preflight. */
    method RunImport(f: File, dryRun: bool)
      requires View() == Start(db)
      modifies this
      ensures View() == Import(w, dryRun, old(db), f)
      ensures dryRun ==> db == old(db)
    {
      ghost var s := View();
      ImportGoals(OrderedGoals(f.goals), dryRun);
      ImportTasks(OrderedTasks(f.tasks), dryRun, Refs(f.tasks));
      if dryRun {
        DryGoalsWriteNothing(w, s, OrderedGoals(f.goals));
        DryTasksWriteNothing(w, Refs(f.tasks), Goals(w, true, s, OrderedGoals(f.goals)), OrderedTasks(f.tasks));
      }
    }
  }

  // ----- what the two orders are -----

  /** The positions in `entries` of those with this key, ascending. */
  function Positions<T>(entries: seq<T>, late: T -> bool, key: bool): seq<nat> {
    if entries == [] then []
    else
      var n := |entries| - 1;
      Positions(entries[..n], late, key) + if late(entries[n]) == key then [n] else []
  }

  lemma {:induction false} WhereAt<T>(entries: seq<T>, late: T -> bool, key: bool)
    ensures var at, chosen := Positions(entries, late, key), Where(entries, late, key);
            && |at| == |chosen|
            && (forall k | 0 <= k < |at| :: at[k] < |entries| && chosen[k] == entries[at[k]] && late(chosen[k]) == key)
            && (forall k, l | 0 <= k < l < |at| :: at[k] < at[l])
  {
    if entries != [] {
      WhereAt(entries[..|entries| - 1], late, key);
    }
  }

  lemma {:induction false} WhereParts<T>(entries: seq<T>, late: T -> bool)
    ensures |Where(entries, late, false)| + |Where(entries, late, true)| == |entries|
    ensures multiset(Sorted(entries, late)) == multiset(entries)
  {
    if entries != [] {
      var init, last := entries[..|entries| - 1], entries[|entries| - 1];
      WhereParts(init, late);
      assert entries == init + [last];
      var f, t := Where(init, late, false), Where(init, late, true);
      if late(last) {
        assert f + [] == f && f + (t + [last]) == (f + t) + [last];
      } else {
        assert t + [] == t;
        PutBetween(f, last, t);
      }
    }
  }

  lemma PutBetween<T>(f: seq<T>, x: T, t: seq<T>)
    ensures multiset((f + [x]) + t) == multiset((f + t) + [x])
  {
    assert multiset((f + [x]) + t) == multiset(f) + multiset{x} + multiset(t);
    assert multiset((f + t) + [x]) == multiset(f) + multiset(t) + multiset{x};
  }

  /**
   `at` says where each sorted entry stood: a permutation that keeps the order within each
   class, false before true.
   */
  ghost predicate StablySorted<T(!new)>(entries: seq<T>, sorted: seq<T>, late: T -> bool, at: seq<nat>) {
    && |at| == |sorted| == |entries| && multiset(sorted) == multiset(entries)
    && (forall k | 0 <= k < |at| :: at[k] < |entries| && sorted[k] == entries[at[k]])
    && (forall k, l | 0 <= k < l < |at| :: at[k] != at[l])
    && (forall k, l | 0 <= k < l < |at| :: late(sorted[k]) ==> late(sorted[l]))
    && (forall k, l | 0 <= k < l < |at| && late(sorted[k]) == late(sorted[l]) :: at[k] < at[l])
  }

  lemma SortedIsStable<T(!new)>(entries: seq<T>, late: T -> bool) returns (at: seq<nat>)
    ensures StablySorted(entries, Sorted(entries, late), late, at)
  {
    WhereAt(entries, late, false);
    WhereAt(entries, late, true);
    WhereParts(entries, late);
    at := Positions(entries, late, false) + Positions(entries, late, true);
  }

  /** The goals are the file's goals, long-term ones first, otherwise in the file's order. */
  lemma GoalsAreOrdered(entries: seq<GoalEntry>) returns (at: seq<nat>)
    ensures StablySorted(entries, OrderedGoals(entries), (e: GoalEntry) => !e.longTerm, at)
  {
    at := SortedIsStable(entries, (e: GoalEntry) => !e.longTerm);
  }

  /** The tasks are the file's tasks, parentless ones first, otherwise in the file's order. */
  lemma TasksAreOrdered(entries: seq<TaskEntry>) returns (at: seq<nat>)
    ensures StablySorted(entries, OrderedTasks(entries), (e: TaskEntry) => e.parentRef.Some?, at)
  {
    at := SortedIsStable(entries, (e: TaskEntry) => e.parentRef.Some?);
  }

  lemma {:induction false} TasksAppend(w: World, dryRun: bool, refs: set<string>, s: Progress, a: seq<TaskEntry>,
      b: seq<TaskEntry>)
    ensures Tasks(w, dryRun, refs, s, a + b) == Tasks(w, dryRun, refs, Tasks(w, dryRun, refs, s, a), b)
    decreases |a|
  {
    if a == [] {
      assert a + b == b;
    } else {
      assert (a + b)[1..] == a[1..] + b;
      TasksAppend(w, dryRun, refs, TaskStep(w, dryRun, refs, s, a[0]), a[1..], b);
    }
  }

  lemma {:induction false} IdsStay(w: World, dryRun: bool, refs: set<string>, s: Progress, entries: seq<TaskEntry>)
    ensures s.taskIds.Keys <= Tasks(w, dryRun, refs, s, entries).taskIds.Keys
    decreases |entries|
  {
    if entries != [] {
      IdsStay(w, dryRun, refs, TaskStep(w, dryRun, refs, s, entries[0]), entries[1..]);
    }
  }

  /** Whatever order the file lists them in, a parentless task is dealt with before its child. */
  lemma ParentComesFirst(f: File, q: TaskEntry, e: TaskEntry)
    returns (before: seq<TaskEntry>, between: seq<TaskEntry>, after: seq<TaskEntry>)
    requires q in f.tasks && e in f.tasks && q.parentRef.None? && e.parentRef.Some?
    ensures OrderedTasks(f.tasks) == before + [q] + between + [e] + after
  {
    var ts := OrderedTasks(f.tasks);
    var i, j := EarlyBeforeLate(f.tasks, (x: TaskEntry) => x.parentRef.Some?, q, e);
    before, between, after := ts[..i], ts[i + 1..j], ts[j + 1..];
    CutTwice(ts, i, j);
  }

  lemma EarlyBeforeLate<T(!new)>(entries: seq<T>, late: T -> bool, q: T, e: T) returns (i: nat, j: nat)
    requires q in entries && e in entries && !late(q) && late(e)
    ensures i < j < |Sorted(entries, late)| && Sorted(entries, late)[i] == q && Sorted(entries, late)[j] == e
  {
    var at := SortedIsStable(entries, late);
    var sorted := Sorted(entries, late);
    assert q in multiset(entries) && e in multiset(entries);
    assert q in sorted && e in sorted;
    i :| 0 <= i < |sorted| && sorted[i] == q;
    j :| 0 <= j < |sorted| && sorted[j] == e;
  }

  lemma CutTwice<T>(ts: seq<T>, i: nat, j: nat)
    requires i < j < |ts|
    ensures ts == ts[..i] + [ts[i]] + ts[i + 1..j] + [ts[j]] + ts[j + 1..]
  {
  }

  /**
   So a child whose parent was found, made or planned is never refused for its parent:
   when its turn comes, only its owner and its goal can make it inadmissible.
   */
  lemma ChildFindsItsParent(w: World, dryRun: bool, s: Progress, f: File, q: TaskEntry, e: TaskEntry)
    returns (before: seq<TaskEntry>, between: seq<TaskEntry>, after: seq<TaskEntry>)
    requires q in f.tasks && e in f.tasks && q.parentRef.None? && e.parentRef == Some(q.ref)
    ensures OrderedTasks(f.tasks) == before + [q] + between + [e] + after
    ensures var refs := Refs(f.tasks);
            var atQ, atE := Tasks(w, dryRun, refs, s, before), Tasks(w, dryRun, refs, s, before + [q] + between);
            var c := TaskCase(w, dryRun, refs, atQ, q);
            c.Found? || c.Made? || c.Planned? ==>
              && q.ref in atE.taskIds
              && (Admissible(w, refs, atE.goalIds, atE.taskIds, e) <==>
                    (e.owner.Some? ==> e.owner.value in w.owners) && Has(e.goalRef, atE.goalIds))
  {
    before, between, after := ParentComesFirst(f, q, e);
    var refs := Refs(f.tasks);
    var atQ := Tasks(w, dryRun, refs, s, before);
    var done := TaskStep(w, dryRun, refs, atQ, q);
    TasksAppend(w, dryRun, refs, s, before, [q]);
    assert Tasks(w, dryRun, refs, atQ, [q]) == Tasks(w, dryRun, refs, done, []) == done;
    TasksAppend(w, dryRun, refs, s, before + [q], between);
    IdsStay(w, dryRun, refs, done, between);
  }

  lemma {:induction false} DryGoalsWriteNothing(w: World, s: Progress, entries: seq<GoalEntry>)
    ensures Goals(w, true, s, entries).db == s.db
    decreases |entries|
  {
    if entries != [] {
      DryGoalsWriteNothing(w, GoalStep(w, true, s, entries[0]), entries[1..]);
    }
  }

  lemma {:induction false} DryTasksWriteNothing(w: World, refs: set<string>, s: Progress, entries: seq<TaskEntry>)
    ensures Tasks(w, true, refs, s, entries).db == s.db
    decreases |entries|
  {
    if entries != [] {
      DryTasksWriteNothing(w, refs, TaskStep(w, true, refs, s, entries[0]), entries[1..]);
    }
  }

  // ----- importing the same file again -----

  /** The store decides alike in both runs; only the freshly generated ids may differ. */
  ghost predicate SameStore(w: World, w': World) {
    w' == w.(newGoalId := w'.newGoalId, newTaskId := w'.newTaskId)
  }

  ghost predicate UniqueTitles(w: World, entries: seq<GoalEntry>) {
    forall i, j | 0 <= i < j < |entries| && entries[i].company in w.companies && entries[j].company in w.companies ::
      GoalKey(w, entries[i]) != GoalKey(w, entries[j])
  }

  /** Two entries of known companies are told apart by company and title. */
  lemma TwoTitles(w: World, a: GoalEntry, b: GoalEntry)
    requires a.company in w.companies && b.company in w.companies
    ensures UniqueTitles(w, [a, b]) <==> (w.companies[a.company], a.title) != (w.companies[b.company], b.title)
  {
    assert [a, b][0] == a && [a, b][1] == b;
  }

  ghost predicate FromGoal(w: World, entries: seq<GoalEntry>, key: (string, string)) {
    exists e | e in entries :: e.company in w.companies && GoalKey(w, e) == key
  }

  /** Goals are never removed or re-pointed, and every new one is named by an entry. */
  lemma {:induction false} GoalsGrow(w: World, s: Progress, entries: seq<GoalEntry>, key: (string, string))
    ensures var after := Goals(w, false, s, entries).db.goals;
            && (key in s.db.goals ==> key in after && after[key] == s.db.goals[key])
            && (key in after && key !in s.db.goals ==> FromGoal(w, entries, key))
    decreases |entries|
  {
    if entries != [] {
      var e, rest := entries[0], entries[1..];
      GoalsGrow(w, GoalStep(w, false, s, e), rest, key);
      assert e in entries && forall x | x in rest :: x in entries;
    }
  }

  lemma FirstTitleIsUnique(w: World, entries: seq<GoalEntry>)
    requires UniqueTitles(w, entries) && entries != [] && entries[0].company in w.companies
    ensures !FromGoal(w, entries[1..], GoalKey(w, entries[0]))
  {
    forall x | x in entries[1..] && x.company in w.companies ensures GoalKey(w, x) != GoalKey(w, entries[0]) {
      var j :| 0 <= j < |entries[1..]| && entries[1..][j] == x;
      assert entries[j + 1] == x;
    }
  }

  /**
   What the replay of one goal does, given that the finished database has it exactly if the
   first run's step left it there.
   */
  lemma GoalReplayStep(w: World, w': World, s1: Progress, s2: Progress, e: GoalEntry)
    requires SameStore(w, w') && s2.goalIds.Keys == s1.goalIds.Keys
    requires e.company in w.companies ==>
               (GoalKey(w, e) in s2.db.goals <==> GoalKey(w, e) in GoalStep(w, false, s1, e).db.goals)
    ensures var t := GoalStep(w', false, s2, e);
            && t.db == s2.db && t.goals.created == s2.goals.created
            && t.goalIds.Keys == GoalStep(w, false, s1, e).goalIds.Keys
  {
  }

  /**
   Replaying the goals on the finished database: nothing is written, nothing is
   created, and the reference map has the same domain after every entry.
   */
  lemma {:induction false} GoalsReplay(w: World, w': World, s1: Progress, s2: Progress, entries: seq<GoalEntry>)
    requires SameStore(w, w') && UniqueTitles(w, entries)
    requires s2.db.goals == Goals(w, false, s1, entries).db.goals && s2.goalIds.Keys == s1.goalIds.Keys
    ensures var r := Goals(w', false, s2, entries);
            && r.db == s2.db && r.goals.created == s2.goals.created
            && r.goalIds.Keys == Goals(w, false, s1, entries).goalIds.Keys
    decreases |entries|
  {
    if entries != [] {
      var e, rest := entries[0], entries[1..];
      var t1 := GoalStep(w, false, s1, e);
      if e.company in w.companies {
        GoalsGrow(w, t1, rest, GoalKey(w, e));
        FirstTitleIsUnique(w, entries);
      }
      GoalReplayStep(w, w', s1, s2, e);
      assert forall i | 0 <= i < |rest| :: rest[i] == entries[i + 1];
      GoalsReplay(w, w', t1, GoalStep(w', false, s2, e), rest);
    }
  }

  /** The goal pass leaves the task side alone, and the task pass the goal side. */
  lemma {:induction false} GoalsKeepTasks(w: World, dryRun: bool, s: Progress, entries: seq<GoalEntry>)
    ensures var r := Goals(w, dryRun, s, entries);
            && r.taskIds == s.taskIds && r.tasks == s.tasks && r.repairs == s.repairs
            && r.db == s.db.(goals := r.db.goals)
    decreases |entries|
  {
    if entries != [] {
      GoalsKeepTasks(w, dryRun, GoalStep(w, dryRun, s, entries[0]), entries[1..]);
    }
  }

  lemma {:induction false} TasksKeepGoals(w: World, dryRun: bool, refs: set<string>, s: Progress,
      entries: seq<TaskEntry>)
    ensures var r := Tasks(w, dryRun, refs, s, entries);
            r.db.goals == s.db.goals && r.goalIds == s.goalIds && r.goals == s.goals
    decreases |entries|
  {
    if entries != [] {
      TasksKeepGoals(w, dryRun, refs, TaskStep(w, dryRun, refs, s, entries[0]), entries[1..]);
    }
  }

  // ----- references -----

  /** Normalizing twice is normalizing once. */
  ghost predicate NormOk(w: World) {
    forall x :: w.norm(x).Some? ==> w.norm(w.norm(x).value) == w.norm(x)
  }

  ghost predicate UniqueRefs(w: World, entries: seq<TaskEntry>) {
    forall i, j | 0 <= i < j < |entries| && w.norm(entries[i].ref).Some? ::
      w.norm(entries[i].ref) != w.norm(entries[j].ref)
  }

  lemma TwoRefs(w: World, a: TaskEntry, b: TaskEntry)
    ensures UniqueRefs(w, [a, b]) <==> w.norm(a.ref).None? || w.norm(a.ref) != w.norm(b.ref)
  {
    assert [a, b][0] == a && [a, b][1] == b;
  }

  predicate Blank(w: World, ref: string) {
    w.norm(ref).None?
  }

  ghost predicate FromTask(w: World, entries: seq<TaskEntry>, k: string) {
    exists e | e in entries :: w.norm(e.ref) == Some(k)
  }

  /** `after` holds every card, claim and verification of `before`, unchanged. */
  ghost predicate Extends(before: Db, after: Db) {
    && (forall k | k in before.tasks :: k in after.tasks && after.tasks[k] == before.tasks[k])
    && (forall v | v in before.evidence :: v in after.evidence && after.evidence[v] == before.evidence[v])
    && before.verified <= after.verified
  }

  lemma ReconcileExtends(w: World, db: Db, e: TaskEntry, id: string)
    ensures Extends(db, Reconciled(w, db, e, id)) && Reconciled(w, db, e, id).tasks == db.tasks
  {
  }

  lemma InsertExtends(w: World, db: Db, e: TaskEntry, id: string)
    requires Insertable(w, db.tasks, e)
    ensures Extends(db, Inserted(w, db, e, id))
    ensures forall k | k in Inserted(w, db, e, id).tasks && k !in db.tasks :: w.norm(e.ref) == Some(k)
  {
  }

  lemma StepExtends(w: World, refs: set<string>, s: Progress, e: TaskEntry)
    ensures Extends(s.db, TaskStep(w, false, refs, s, e).db)
    ensures forall k | k in TaskStep(w, false, refs, s, e).db.tasks && k !in s.db.tasks :: w.norm(e.ref) == Some(k)
  {
    var c := TaskCase(w, false, refs, s, e);
    if c.Made? {
      InsertExtends(w, s.db, e, c.id);
      ReconcileExtends(w, Inserted(w, s.db, e, c.id), e, c.id);
    } else if c.Found? {
      ReconcileExtends(w, s.db, e, c.id);
    }
  }

  lemma {:induction false} TasksExtend(w: World, refs: set<string>, s: Progress, entries: seq<TaskEntry>)
    ensures Extends(s.db, Tasks(w, false, refs, s, entries).db)
    decreases |entries|
  {
    if entries != [] {
      StepExtends(w, refs, s, entries[0]);
      TasksExtend(w, refs, TaskStep(w, false, refs, s, entries[0]), entries[1..]);
    }
  }

  lemma {:induction false} TasksComeFromEntries(w: World, refs: set<string>, s: Progress, entries: seq<TaskEntry>,
      k: string)
    ensures k in Tasks(w, false, refs, s, entries).db.tasks && k !in s.db.tasks ==> FromTask(w, entries, k)
    decreases |entries|
  {
    if entries != [] {
      var e, rest := entries[0], entries[1..];
      StepExtends(w, refs, s, e);
      TasksComeFromEntries(w, refs, TaskStep(w, false, refs, s, e), rest, k);
      assert e in entries && forall x | x in rest :: x in entries;
    }
  }

  /** No later entry stores this entry's reference, in either spelling. */
  lemma FirstRefIsUnique(w: World, entries: seq<TaskEntry>, k: string)
    requires NormOk(w) && UniqueRefs(w, entries) && entries != []
    requires k == entries[0].ref || w.norm(entries[0].ref) == Some(k)
    ensures !FromTask(w, entries[1..], k)
  {
    forall x | x in entries[1..] ensures w.norm(x.ref) != Some(k) {
      var j :| 0 <= j < |entries[1..]| && entries[1..][j] == x;
      assert entries[j + 1] == x;
      assert w.norm(x.ref) == Some(k) ==> w.norm(k) == Some(k);
    }
  }

  /** So the finished board has it exactly if this entry's own step left it there. */
  lemma OnlyOwnStepAdds(w: World, refs: set<string>, s: Progress, entries: seq<TaskEntry>, k: string)
    requires NormOk(w) && UniqueRefs(w, entries) && entries != []
    requires k == entries[0].ref || w.norm(entries[0].ref) == Some(k)
    ensures k in Tasks(w, false, refs, s, entries).db.tasks <==> k in TaskStep(w, false, refs, s, entries[0]).db.tasks
  {
    var t := TaskStep(w, false, refs, s, entries[0]);
    FirstRefIsUnique(w, entries, k);
    TasksComeFromEntries(w, refs, t, entries[1..], k);
    TasksExtend(w, refs, t, entries[1..]);
  }

  // ----- replaying the tasks -----

  /** How the two runs stand to each other before an entry. */
  ghost predicate InStep(w: World, s1: Progress, s2: Progress, stored: map<string, string>) {
    && s2.db.tasks == stored && s2.goalIds.Keys == s1.goalIds.Keys && s2.taskIds.Keys <= s1.taskIds.Keys
    && (forall x | x in s2.tasks.created :: Blank(w, x))
  }

  /** In the second run an entry with a reference is never inserted, and whatever gets an id had one in the first. */
  lemma ReplayCase(w: World, w': World, refs: set<string>, s1: Progress, s2: Progress, entries: seq<TaskEntry>)
    requires SameStore(w, w') && NormOk(w) && UniqueRefs(w, entries) && entries != []
    requires InStep(w, s1, s2, Tasks(w, false, refs, s1, entries).db.tasks)
    ensures var e := entries[0];
            var c1, c2 := TaskCase(w, false, refs, s1, e), TaskCase(w', false, refs, s2, e);
            && !c2.Planned? && !c1.Planned?
            && (c2.Made? ==> Blank(w, e.ref) && c1.Made?)
            && (c2.Found? ==> c1.Found? || c1.Made?)
  {
    var e := entries[0];
    OnlyOwnStepAdds(w, refs, s1, entries, e.ref);
    if w.norm(e.ref).Some? {
      OnlyOwnStepAdds(w, refs, s1, entries, w.norm(e.ref).value);
    }
  }

  lemma ReplayStep(w: World, w': World, refs: set<string>, s1: Progress, s2: Progress, entries: seq<TaskEntry>)
    requires SameStore(w, w') && NormOk(w) && UniqueRefs(w, entries) && entries != []
    requires InStep(w, s1, s2, Tasks(w, false, refs, s1, entries).db.tasks)
    ensures InStep(w, TaskStep(w, false, refs, s1, entries[0]), TaskStep(w', false, refs, s2, entries[0]),
                   Tasks(w, false, refs, s1, entries).db.tasks)
  {
    ReplayCase(w, w', refs, s1, s2, entries);
  }

  lemma {:induction false} TasksReplay(w: World, w': World, refs: set<string>, s1: Progress, s2: Progress,
      entries: seq<TaskEntry>)
    requires SameStore(w, w') && NormOk(w) && UniqueRefs(w, entries)
    requires InStep(w, s1, s2, Tasks(w, false, refs, s1, entries).db.tasks)
    ensures InStep(w, Tasks(w, false, refs, s1, entries), Tasks(w', false, refs, s2, entries),
                   Tasks(w, false, refs, s1, entries).db.tasks)
    decreases |entries|
  {
    if entries != [] {
      ReplayStep(w, w', refs, s1, s2, entries);
      assert forall i | 0 <= i < |entries[1..]| :: entries[1..][i] == entries[i + 1];
      TasksReplay(w, w', refs, TaskStep(w, false, refs, s1, entries[0]), TaskStep(w', false, refs, s2, entries[0]),
          entries[1..]);
    }
  }

  /**
   Importing a file a second time creates no goal, and no task except cards without a
   reference: everything that has one is found, or collides with itself, and the
   goals and referenced cards on the board are exactly those of the first run.
   */
  lemma SecondRunCreatesNothingReferenced(w: World, w': World, db: Db, f: File)
    requires SameStore(w, w') && NormOk(w)
    requires UniqueTitles(w, OrderedGoals(f.goals)) && UniqueRefs(w, OrderedTasks(f.tasks))
    ensures var r1 := Import(w, false, db, f);
            var r2 := Import(w', false, r1.db, f);
            && r2.goals.created == [] && (forall x | x in r2.tasks.created :: Blank(w, x))
            && r2.db.goals == r1.db.goals && r2.db.tasks == r1.db.tasks
  {
    var g1, g2 := AtTasks(w, w', db, f);
    TasksReplay(w, w', Refs(f.tasks), g1, g2, OrderedTasks(f.tasks));
    TasksKeepGoals(w, false, Refs(f.tasks), g1, OrderedTasks(f.tasks));
    TasksKeepGoals(w', false, Refs(f.tasks), g2, OrderedTasks(f.tasks));
  }

  // ----- nothing at all changes when every task has a reference -----

  /** What a reconciled card looks like from then on, whatever later cards do. */
  predicate Settled(w: World, db: Db, e: TaskEntry, id: string) {
    e.evidence.Some? ==>
      && e.evidence.value in db.evidence
      && (db.evidence[e.evidence.value] == OfTask(id) ==> id in db.verified || !w.verifies(e))
  }

  lemma SettledStays(w: World, db: Db, after: Db, e: TaskEntry, id: string)
    requires Settled(w, db, e, id) && Extends(db, after)
    ensures Settled(w, after, e, id)
  {
  }

  lemma ReconcileSettles(w: World, db: Db, e: TaskEntry, id: string)
    ensures Settled(w, Reconciled(w, db, e, id), e, id)
  {
  }

  lemma SettledIsLeftAlone(w: World, db: Db, e: TaskEntry, id: string)
    requires Settled(w, db, e, id)
    ensures Reconciled(w, db, e, id) == db
    ensures forall repairs, dryRun :: RepairsAfter(w, dryRun, repairs, db, Found(id), e) == repairs
  {
    if e.evidence.Some? && !Conflicting(db, e, id) {
      assert db.evidence[e.evidence.value := OfTask(id)] == db.evidence;
      if w.verifies(e) {
        assert db.verified + {id} == db.verified;
      }
    }
    forall repairs: seq<string>, dryRun ensures RepairsAfter(w, dryRun, repairs, db, Found(id), e) == repairs {
      assert repairs + [] + [] == repairs;
    }
  }

  /**
   The id under which the finished board has an entry's reference is the one the first run
   used, and it is settled.
   */
  lemma FirstRunSettles(w: World, refs: set<string>, s: Progress, entries: seq<TaskEntry>)
    requires NormOk(w) && UniqueRefs(w, entries) && entries != []
    ensures var e, done := entries[0], Tasks(w, false, refs, s, entries).db;
            e.ref in done.tasks ==> Settled(w, done, e, done.tasks[e.ref])
  {
    var e, done := entries[0], Tasks(w, false, refs, s, entries).db;
    var t, c := TaskStep(w, false, refs, s, e), TaskCase(w, false, refs, s, e);
    OnlyOwnStepAdds(w, refs, s, entries, e.ref);
    TasksExtend(w, refs, t, entries[1..]);
    if e.ref in done.tasks {
      StepExtends(w, refs, s, e);
      if c.Found? {
        ReconcileSettles(w, s.db, e, c.id);
      } else {
        ReconcileSettles(w, Inserted(w, s.db, e, c.id), e, c.id);
      }
      SettledStays(w, t.db, done, e, t.db.tasks[e.ref]);
    }
  }

  lemma {:induction false} TasksReplayNoOp(w: World, w': World, refs: set<string>, s1: Progress, s2: Progress,
      entries: seq<TaskEntry>)
    requires SameStore(w, w') && NormOk(w) && UniqueRefs(w, entries)
    requires s2.db == Tasks(w, false, refs, s1, entries).db.(goals := s2.db.goals, unreferenced := s2.db.unreferenced)
    requires InStep(w, s1, s2, s2.db.tasks)
    requires forall e | e in entries :: !Blank(w, e.ref)
    ensures var r := Tasks(w', false, refs, s2, entries);
            r.db == s2.db && r.repairs == s2.repairs && r.tasks.created == s2.tasks.created
    decreases |entries|
  {
    if entries != [] {
      var e, rest := entries[0], entries[1..];
      assert e in entries && forall x | x in rest :: x in entries;
      ReplayCase(w, w', refs, s1, s2, entries);
      ReplayStep(w, w', refs, s1, s2, entries);
      FirstRunSettles(w, refs, s1, entries);
      NoOpStep(w, w', refs, s2, e);
      assert forall i | 0 <= i < |rest| :: rest[i] == entries[i + 1];
      TasksReplayNoOp(w, w', refs, TaskStep(w, false, refs, s1, e), TaskStep(w', false, refs, s2, e), rest);
    }
  }

  lemma NoOpStep(w: World, w': World, refs: set<string>, s2: Progress, e: TaskEntry)
    requires SameStore(w, w') && !TaskCase(w', false, refs, s2, e).Made? && !TaskCase(w', false, refs, s2, e).Planned?
    requires e.ref in s2.db.tasks ==> Settled(w, s2.db, e, s2.db.tasks[e.ref])
    ensures var t := TaskStep(w', false, refs, s2, e);
            t.db == s2.db && t.repairs == s2.repairs && t.tasks.created == s2.tasks.created
  {
    if e.ref in s2.db.tasks {
      SettledIsLeftAlone(w', s2.db, e, s2.db.tasks[e.ref]);
    }
  }

  /**
   When no task reference is blank, the second run changes nothing in the database,
   creates nothing and repairs nothing: evidence and verification included.
   */
  lemma SecondRunIsNoOp(w: World, w': World, db: Db, f: File)
    requires SameStore(w, w') && NormOk(w)
    requires UniqueTitles(w, OrderedGoals(f.goals)) && UniqueRefs(w, OrderedTasks(f.tasks))
    requires forall e | e in OrderedTasks(f.tasks) :: !Blank(w, e.ref)
    ensures var r1 := Import(w, false, db, f);
            var r2 := Import(w', false, r1.db, f);
            r2.db == r1.db && r2.goals.created == [] && r2.tasks.created == [] && r2.repairs == []
  {
    var g1, g2 := AtTasks(w, w', db, f);
    TasksReplayNoOp(w, w', Refs(f.tasks), g1, g2, OrderedTasks(f.tasks));
    TasksKeepGoals(w, false, Refs(f.tasks), g1, OrderedTasks(f.tasks));
    TasksKeepGoals(w', false, Refs(f.tasks), g2, OrderedTasks(f.tasks));
  }

  // ----- blank references, exactly -----

  /** The store only holds normalized references. */
  ghost predicate CanonicalDb(w: World, db: Db) {
    forall k | k in db.tasks :: w.norm(k) == Some(k)
  }

  predicate Canonical(w: World, ref: string) {
    w.norm(ref) == Some(ref)
  }

  function Blanks(w: World, refs: seq<string>): seq<string> {
    if refs == [] then []
    else Blanks(w, refs[..|refs| - 1]) + (if Blank(w, refs[|refs| - 1]) then [refs[|refs| - 1]] else [])
  }

  lemma BlanksPush(w: World, refs: seq<string>, x: string)
    ensures Blanks(w, refs + [x]) == Blanks(w, refs) + if Blank(w, x) then [x] else []
  {
    assert (refs + [x])[..|refs|] == refs;
  }

  lemma StepKeepsCanonical(w: World, refs: set<string>, s: Progress, e: TaskEntry)
    requires NormOk(w) && CanonicalDb(w, s.db)
    ensures CanonicalDb(w, TaskStep(w, false, refs, s, e).db)
  {
    StepExtends(w, refs, s, e);
  }

  /** How a reference must be spelled for the second run to know its card, if the card has an id at all. */
  predicate Plain(w: World, ref: string) {
    Blank(w, ref) || Canonical(w, ref)
  }

  /** A card without a reference whose parent is named in another spelling than the store's. */
  predicate Orphan(w: World, e: TaskEntry) {
    Blank(w, e.ref) && e.parentRef.Some? && !Plain(w, e.parentRef.value)
  }

  /** The run makes no such card. */
  ghost predicate MakesNoOrphan(w: World, refs: set<string>, s: Progress, entries: seq<TaskEntry>)
    decreases |entries|
  {
    entries != [] ==>
      && !(TaskCase(w, false, refs, s, entries[0]).Made? && Orphan(w, entries[0]))
      && MakesNoOrphan(w, refs, TaskStep(w, false, refs, s, entries[0]), entries[1..])
  }

  /** The second run knows ids only under plain references. */
  ghost predicate PlainIds(w: World, s2: Progress) {
    forall k | k in s2.taskIds :: Plain(w, k)
  }

  ghost predicate SameIds(w: World, s1: Progress, s2: Progress) {
    forall k | k in s1.taskIds && Plain(w, k) :: k in s2.taskIds
  }

  /** Exactly what becomes of an entry in the second run, given its fate in the first. */
  lemma ExactCase(w: World, w': World, refs: set<string>, s1: Progress, s2: Progress, entries: seq<TaskEntry>)
    requires SameStore(w, w') && NormOk(w) && UniqueRefs(w, entries) && entries != [] && CanonicalDb(w, s1.db)
    requires InStep(w, s1, s2, Tasks(w, false, refs, s1, entries).db.tasks) && PlainIds(w, s2)
    ensures var e := entries[0];
            var c1, c2 := TaskCase(w, false, refs, s1, e), TaskCase(w', false, refs, s2, e);
            && !c1.Planned? && !c2.Planned?
            && (c2.Found? <==> Canonical(w, e.ref) && (c1.Found? || c1.Made?))
            && (c2.Made? ==> Blank(w, e.ref) && c1.Made? && !Orphan(w, e))
            && (SameIds(w, s1, s2) && Blank(w, e.ref) && c1.Made? && !Orphan(w, e) ==> c2.Made?)
            && (c2.Made? ==> c2.complete) && (c1.Made? ==> c1.complete) && (c1.Found? ==> Canonical(w, e.ref))
  {
    ReplayCase(w, w', refs, s1, s2, entries);
    OnlyOwnStepAdds(w, refs, s1, entries, entries[0].ref);
    StepKeepsCanonical(w, refs, s1, entries[0]);
  }

  /** The parts of a real step that later entries can see. */
  lemma StepEffect(w: World, refs: set<string>, s: Progress, e: TaskEntry)
    ensures var c, t := TaskCase(w, false, refs, s, e), TaskStep(w, false, refs, s, e);
            && t.goalIds == s.goalIds
            && t.taskIds.Keys == (if c.Found? || c.Made? then s.taskIds.Keys + {e.ref} else s.taskIds.Keys)
            && t.tasks.created == (if c.Made? then s.tasks.created + [e.ref] else s.tasks.created)
            && t.tasks.skipped == (if c.Found? then s.tasks.skipped + [e.ref] else s.tasks.skipped)
            && s.tasks.refused <= t.tasks.refused
            && (c.Inadmissible? || c.Turned? ==> t.tasks.refused == s.tasks.refused + [e.ref])
            && t.db.tasks == (if c.Made? then Inserted(w, s.db, e, c.id).tasks else s.db.tasks)
  {
  }

  /** One entry of both runs: how far the second run is behind in cards without a reference. */
  lemma ExactStep(w: World, w': World, refs: set<string>, s1: Progress, s2: Progress, entries: seq<TaskEntry>)
    requires SameStore(w, w') && NormOk(w) && UniqueRefs(w, entries) && entries != [] && CanonicalDb(w, s1.db)
    requires InStep(w, s1, s2, Tasks(w, false, refs, s1, entries).db.tasks) && PlainIds(w, s2)
    ensures var t1, t2 := TaskStep(w, false, refs, s1, entries[0]), TaskStep(w', false, refs, s2, entries[0]);
            && InStep(w, t1, t2, Tasks(w, false, refs, s1, entries).db.tasks) && PlainIds(w, t2)
            && |t2.tasks.created| - |s2.tasks.created| <= |Blanks(w, t1.tasks.created)| - |Blanks(w, s1.tasks.created)|
            && (TaskCase(w, false, refs, s1, entries[0]).Made? && Orphan(w, entries[0]) ==>
                  |t2.tasks.created| - |s2.tasks.created|
                  < |Blanks(w, t1.tasks.created)| - |Blanks(w, s1.tasks.created)|)
  {
    ExactCase(w, w', refs, s1, s2, entries);
    ReplayStep(w, w', refs, s1, s2, entries);
    BlanksPush(w, s1.tasks.created, entries[0].ref);
    StepEffect(w, refs, s1, entries[0]);
    StepEffect(w', refs, s2, entries[0]);
  }

  lemma KeptStep(w: World, w': World, refs: set<string>, s1: Progress, s2: Progress, entries: seq<TaskEntry>)
    requires SameStore(w, w') && NormOk(w) && UniqueRefs(w, entries) && entries != [] && CanonicalDb(w, s1.db)
    requires InStep(w, s1, s2, Tasks(w, false, refs, s1, entries).db.tasks) && PlainIds(w, s2)
    requires SameIds(w, s1, s2) && s2.tasks.created == Blanks(w, s1.tasks.created)
    requires !(TaskCase(w, false, refs, s1, entries[0]).Made? && Orphan(w, entries[0]))
    ensures var t1, t2 := TaskStep(w, false, refs, s1, entries[0]), TaskStep(w', false, refs, s2, entries[0]);
            SameIds(w, t1, t2) && t2.tasks.created == Blanks(w, t1.tasks.created)
  {
    ExactCase(w, w', refs, s1, s2, entries);
    BlanksPush(w, s1.tasks.created, entries[0].ref);
    StepEffect(w, refs, s1, entries[0]);
    StepEffect(w', refs, s2, entries[0]);
  }

  lemma {:induction false} TasksReplayExact(
    w: World, w': World, refs: set<string>, s1: Progress, s2: Progress, entries: seq<TaskEntry>)
    requires SameStore(w, w') && NormOk(w) && UniqueRefs(w, entries) && CanonicalDb(w, s1.db)
    requires InStep(w, s1, s2, Tasks(w, false, refs, s1, entries).db.tasks) && PlainIds(w, s2)
    ensures var r1, r2 := Tasks(w, false, refs, s1, entries), Tasks(w', false, refs, s2, entries);
            var behind := (|Blanks(w, r1.tasks.created)| - |Blanks(w, s1.tasks.created)|)
                          - (|r2.tasks.created| - |s2.tasks.created|);
            && behind >= 0 && (!MakesNoOrphan(w, refs, s1, entries) ==> behind > 0)
            && (MakesNoOrphan(w, refs, s1, entries) && SameIds(w, s1, s2)
                && s2.tasks.created == Blanks(w, s1.tasks.created)
                ==>
                r2.tasks.created == Blanks(w, r1.tasks.created))
    decreases |entries|
  {
    if entries != [] {
      var e, rest := entries[0], entries[1..];
      ExactStep(w, w', refs, s1, s2, entries);
      StepKeepsCanonical(w, refs, s1, e);
      assert forall i | 0 <= i < |rest| :: rest[i] == entries[i + 1];
      if SameIds(w, s1, s2) && s2.tasks.created == Blanks(w, s1.tasks.created) && MakesNoOrphan(w, refs, s1, entries) {
        KeptStep(w, w', refs, s1, s2, entries);
      }
      TasksReplayExact(w, w', refs, TaskStep(w, false, refs, s1, e), TaskStep(w', false, refs, s2, e), rest);
    }
  }

  /** Both runs of an import, up to where the tasks begin. */
  lemma AtTasks(w: World, w': World, db: Db, f: File) returns (g1: Progress, g2: Progress)
    requires SameStore(w, w') && NormOk(w)
    requires UniqueTitles(w, OrderedGoals(f.goals)) && UniqueRefs(w, OrderedTasks(f.tasks))
    ensures var r1 := Import(w, false, db, f);
            && g1 == Goals(w, false, Start(db), OrderedGoals(f.goals))
            && g2 == Goals(w', false, Start(r1.db), OrderedGoals(f.goals))
            && r1 == Tasks(w, false, Refs(f.tasks), g1, OrderedTasks(f.tasks))
            && Import(w', false, r1.db, f) == Tasks(w', false, Refs(f.tasks), g2, OrderedTasks(f.tasks))
            && InStep(w, g1, g2, r1.db.tasks) && g2.db == r1.db && g1.db == db.(goals := g1.db.goals)
            && g1.taskIds == map[] && g2.taskIds == map[] && g1.tasks == NOTHING && g2.tasks == NOTHING
            && g2.repairs == [] && g2.goals.created == []
  {
    var gs, ts, refs := OrderedGoals(f.goals), OrderedTasks(f.tasks), Refs(f.tasks);
    g1 := Goals(w, false, Start(db), gs);
    var r1 := Tasks(w, false, refs, g1, ts);
    TasksKeepGoals(w, false, refs, g1, ts);
    GoalsReplay(w, w', Start(db), Start(r1.db), gs);
    g2 := Goals(w', false, Start(r1.db), gs);
    GoalsKeepTasks(w, false, Start(db), gs);
    GoalsKeepTasks(w', false, Start(r1.db), gs);
  }

  /**
   The second run creates again exactly the cards of the first run that have no
   reference if and only if the first run made none of them under a parent that is
   named in another spelling; otherwise it creates fewer.
   */
  lemma SecondRunRecreatesBlanks(w: World, w': World, db: Db, f: File)
    requires SameStore(w, w') && NormOk(w) && CanonicalDb(w, db)
    requires UniqueTitles(w, OrderedGoals(f.goals)) && UniqueRefs(w, OrderedTasks(f.tasks))
    ensures var r1 := Import(w, false, db, f);
            var g1 := Goals(w, false, Start(db), OrderedGoals(f.goals));
            Import(w', false, r1.db, f).tasks.created == Blanks(w, r1.tasks.created) <==>
              MakesNoOrphan(w, Refs(f.tasks), g1, OrderedTasks(f.tasks))
  {
    var g1, g2 := AtTasks(w, w', db, f);
    TasksReplayExact(w, w', Refs(f.tasks), g1, g2, OrderedTasks(f.tasks));
  }

  // ----- which cards the second run skips -----

  lemma {:induction false} ReportsGrow(w: World, refs: set<string>, s: Progress, entries: seq<TaskEntry>)
    ensures forall x | x in s.tasks.skipped :: x in Tasks(w, false, refs, s, entries).tasks.skipped
    ensures forall x | x in s.tasks.refused :: x in Tasks(w, false, refs, s, entries).tasks.refused
    decreases |entries|
  {
    if entries != [] {
      StepEffect(w, refs, s, entries[0]);
      ReportsGrow(w, refs, TaskStep(w, false, refs, s, entries[0]), entries[1..]);
    }
  }

  /** Whatever the first run makes comes from an entry and ends up stored under its normalized reference. */
  lemma {:induction false} CreatedIsStored(w: World, refs: set<string>, s: Progress, entries: seq<TaskEntry>, x: string)
    requires x in Tasks(w, false, refs, s, entries).tasks.created && x !in s.tasks.created
    ensures exists e | e in entries :: e.ref == x
    ensures w.norm(x).Some? ==> w.norm(x).value in Tasks(w, false, refs, s, entries).db.tasks
    decreases |entries|
  {
    var e, rest := entries[0], entries[1..];
    var t := TaskStep(w, false, refs, s, e);
    StepEffect(w, refs, s, e);
    assert e in entries && forall y | y in rest :: y in entries;
    if x in t.tasks.created {
      assert x == e.ref && TaskCase(w, false, refs, s, e).Made?;
      TasksExtend(w, refs, t, rest);
    } else {
      CreatedIsStored(w, refs, t, rest, x);
    }
  }

  lemma OwnReport(w: World, refs: set<string>, s: Progress, e: TaskEntry)
    ensures var t := TaskStep(w, false, refs, s, e);
            && (forall x | x in s.tasks.refused :: x in t.tasks.refused)
            && (forall x | x in t.tasks.skipped :: x in s.tasks.skipped || (x == e.ref && x in s.db.tasks))
            && (e.ref in s.db.tasks ==> e.ref in t.tasks.skipped)
            && (e.ref !in s.db.tasks && w.norm(e.ref).Some? && w.norm(e.ref).value in s.db.tasks ==>
                  e.ref in t.tasks.refused)
  {
    StepEffect(w, refs, s, e);
  }

  /**
   In the second run an entry is skipped if its reference is on the board as written, and
   refused if only its card is.
   */
  lemma {:induction false} ReplayReports(
    w: World, w': World, refs: set<string>, s1: Progress, s2: Progress, entries: seq<TaskEntry>, x: string)
    requires SameStore(w, w') && NormOk(w) && UniqueRefs(w, entries)
    requires InStep(w, s1, s2, Tasks(w, false, refs, s1, entries).db.tasks)
    ensures var r, stored := Tasks(w', false, refs, s2, entries), Tasks(w, false, refs, s1, entries).db.tasks;
            && (x in r.tasks.skipped ==> x in s2.tasks.skipped || x in stored)
            && ((exists e | e in entries :: e.ref == x) ==>
                  && (x in stored ==> x in r.tasks.skipped)
                  && (x !in stored && w.norm(x).Some? && w.norm(x).value in stored ==> x in r.tasks.refused))
    decreases |entries|
  {
    if entries != [] {
      var e, rest := entries[0], entries[1..];
      var t1, t2 := TaskStep(w, false, refs, s1, e), TaskStep(w', false, refs, s2, e);
      ReplayStep(w, w', refs, s1, s2, entries);
      assert forall i | 0 <= i < |rest| :: rest[i] == entries[i + 1];
      ReplayReports(w, w', refs, t1, t2, rest, x);
      OwnReport(w', refs, s2, e);
      ReportsGrow(w', refs, t2, rest);
      assert forall y | y in entries :: y == e || y in rest;
    }
  }

  /**
   The promise "a task is skipped on an existing ref", exactly: of the cards the first
   run made with a reference, the second run skips those whose reference is written as
   the store spells it, and refuses every other one.
   */
  lemma SecondRunSkipsExactly(w: World, w': World, db: Db, f: File, x: string)
    requires SameStore(w, w') && NormOk(w) && CanonicalDb(w, db)
    requires UniqueTitles(w, OrderedGoals(f.goals)) && UniqueRefs(w, OrderedTasks(f.tasks))
    requires x in Import(w, false, db, f).tasks.created && !Blank(w, x)
    ensures var r2 := Import(w', false, Import(w, false, db, f).db, f);
            && (x in r2.tasks.skipped <==> Canonical(w, x))
            && (!Canonical(w, x) ==> x in r2.tasks.refused)
  {
    var g1, g2 := AtTasks(w, w', db, f);
    var ts, refs := OrderedTasks(f.tasks), Refs(f.tasks);
    CreatedIsStored(w, refs, g1, ts, x);
    TasksKeepCanonical(w, refs, g1, ts);
    ReplayReports(w, w', refs, g1, g2, ts, x);
  }

  lemma {:induction false} TasksKeepCanonical(w: World, refs: set<string>, s: Progress, entries: seq<TaskEntry>)
    requires NormOk(w) && CanonicalDb(w, s.db)
    ensures CanonicalDb(w, Tasks(w, false, refs, s, entries).db)
    decreases |entries|
  {
    if entries != [] {
      StepKeepsCanonical(w, refs, s, entries[0]);
      TasksKeepCanonical(w, refs, TaskStep(w, false, refs, s, entries[0]), entries[1..]);
    }
  }

  // ----- when a second run is clean -----

  lemma {:induction false} GoalRefusalsGrow(w: World, s: Progress, entries: seq<GoalEntry>)
    ensures |s.goals.refused| <= |Goals(w, false, s, entries).goals.refused|
    decreases |entries|
  {
    if entries != [] {
      GoalRefusalsGrow(w, GoalStep(w, false, s, entries[0]), entries[1..]);
    }
  }

  /** Goals that went through without a refusal are all found the second time. */
  lemma {:induction false} GoalsReplayClean(w: World, w': World, s1: Progress, s2: Progress, entries: seq<GoalEntry>)
    requires SameStore(w, w') && UniqueTitles(w, entries)
    requires s2.db.goals == Goals(w, false, s1, entries).db.goals && s2.goalIds.Keys == s1.goalIds.Keys
    requires |Goals(w, false, s1, entries).goals.refused| == |s1.goals.refused|
    ensures Goals(w', false, s2, entries).goals.refused == s2.goals.refused
    decreases |entries|
  {
    if entries != [] {
      var e, rest := entries[0], entries[1..];
      var t1 := GoalStep(w, false, s1, e);
      GoalRefusalsGrow(w, t1, rest);
      if e.company in w.companies {
        GoalsGrow(w, t1, rest, GoalKey(w, e));
        FirstTitleIsUnique(w, entries);
      }
      GoalReplayStep(w, w', s1, s2, e);
      assert forall i | 0 <= i < |rest| :: rest[i] == entries[i + 1];
      GoalsReplayClean(w, w', t1, GoalStep(w', false, s2, e), rest);
    }
  }

  lemma {:induction false} RefusalsGrow(w: World, refs: set<string>, s: Progress, entries: seq<TaskEntry>)
    ensures |s.tasks.refused| <= |Tasks(w, false, refs, s, entries).tasks.refused|
    decreases |entries|
  {
    if entries != [] {
      StepEffect(w, refs, s, entries[0]);
      RefusalsGrow(w, refs, TaskStep(w, false, refs, s, entries[0]), entries[1..]);
    }
  }

  /** The card has its evidence and its verification, so that reconciling it raises nothing. */
  predicate InOrder(db: Db, e: TaskEntry, id: string) {
    e.evidence.Some? ==>
      e.evidence.value in db.evidence && db.evidence[e.evidence.value] == OfTask(id) && id in db.verified
  }

  lemma InOrderStays(db: Db, after: Db, e: TaskEntry, id: string)
    requires InOrder(db, e, id) && Extends(db, after)
    ensures InOrder(after, e, id)
  {
  }

  /** A task step without a refusal found or made the card, and left it in order. */
  lemma CleanStep(w: World, refs: set<string>, s: Progress, e: TaskEntry)
    requires |TaskStep(w, false, refs, s, e).tasks.refused| == |s.tasks.refused|
    ensures var c := TaskCase(w, false, refs, s, e);
            && (c.Found? || c.Made?) && InOrder(TaskStep(w, false, refs, s, e).db, e, c.id)
            && (Canonical(w, e.ref) ==> e.ref in TaskStep(w, false, refs, s, e).db.tasks
                                        && TaskStep(w, false, refs, s, e).db.tasks[e.ref] == c.id)
  {
    StepEffect(w, refs, s, e);
  }

  /** The second run on one entry of a clean first run: skipped quietly if spelled as stored, otherwise refused. */
  lemma CleanReplayStep(w: World, w': World, refs: set<string>, s1: Progress, s2: Progress, entries: seq<TaskEntry>)
    requires SameStore(w, w') && NormOk(w) && UniqueRefs(w, entries) && entries != [] && CanonicalDb(w, s1.db)
    requires InStep(w, s1, s2, s2.db.tasks) && PlainIds(w, s2) && !Blank(w, entries[0].ref)
    requires s2.db == Tasks(w, false, refs, s1, entries).db.(goals := s2.db.goals, unreferenced := s2.db.unreferenced)
    requires |TaskStep(w, false, refs, s1, entries[0]).tasks.refused| == |s1.tasks.refused|
    ensures var t2 := TaskStep(w', false, refs, s2, entries[0]);
            && t2.db == s2.db
            && (Canonical(w, entries[0].ref) ==> t2.tasks.refused == s2.tasks.refused)
            && (!Canonical(w, entries[0].ref) ==> |t2.tasks.refused| > |s2.tasks.refused|)
  {
    var e := entries[0];
    var t := TaskStep(w, false, refs, s1, e);
    ReplayCase(w, w', refs, s1, s2, entries);
    ExactCase(w, w', refs, s1, s2, entries);
    FirstRunSettles(w, refs, s1, entries);
    NoOpStep(w, w', refs, s2, e);
    CleanStep(w, refs, s1, e);
    StepEffect(w', refs, s2, e);
    if Canonical(w, e.ref) {
      TasksExtend(w, refs, t, entries[1..]);
      InOrderStays(t.db, Tasks(w, false, refs, s1, entries).db, e, t.db.tasks[e.ref]);
    }
  }

  /** A clean run starts with a clean step and goes on clean. */
  lemma CleanStart(w: World, refs: set<string>, s: Progress, entries: seq<TaskEntry>)
    requires entries != [] && |Tasks(w, false, refs, s, entries).tasks.refused| == |s.tasks.refused|
    ensures var t := TaskStep(w, false, refs, s, entries[0]);
            && |t.tasks.refused| == |s.tasks.refused|
            && |Tasks(w, false, refs, t, entries[1..]).tasks.refused| == |t.tasks.refused|
  {
    StepEffect(w, refs, s, entries[0]);
    RefusalsGrow(w, refs, TaskStep(w, false, refs, s, entries[0]), entries[1..]);
  }

  lemma {:induction false} TasksReplayClean(
    w: World, w': World, refs: set<string>, s1: Progress, s2: Progress, entries: seq<TaskEntry>)
    requires SameStore(w, w') && NormOk(w) && UniqueRefs(w, entries) && CanonicalDb(w, s1.db)
    requires InStep(w, s1, s2, s2.db.tasks) && PlainIds(w, s2) && forall e | e in entries :: !Blank(w, e.ref)
    requires s2.db == Tasks(w, false, refs, s1, entries).db.(goals := s2.db.goals, unreferenced := s2.db.unreferenced)
    requires |Tasks(w, false, refs, s1, entries).tasks.refused| == |s1.tasks.refused|
    ensures |Tasks(w', false, refs, s2, entries).tasks.refused| == |s2.tasks.refused| <==>
              forall e | e in entries :: Canonical(w, e.ref)
    decreases |entries|
  {
    if entries != [] {
      var e, rest := entries[0], entries[1..];
      var t1, t2 := TaskStep(w, false, refs, s1, e), TaskStep(w', false, refs, s2, e);
      CleanStart(w, refs, s1, entries);
      CleanReplayStep(w, w', refs, s1, s2, entries);
      ExactStep(w, w', refs, s1, s2, entries);
      StepKeepsCanonical(w, refs, s1, e);
      assert forall i | 0 <= i < |rest| :: rest[i] == entries[i + 1];
      TasksReplayClean(w, w', refs, t1, t2, rest);
      RefusalsGrow(w', refs, t2, rest);
      assert forall x :: x in entries <==> x == e || x in rest;
    }
  }

  /** Nothing was refused: the run exits with status 0. */
  predicate Clean(r: Progress) {
    r.goals.refused == [] && r.tasks.refused == []
  }

  /**
   The exit status of importing a file again, exactly: after a clean run of a file
   without blank references, the second run is clean if and only if every task
   reference is written as the store spells it.
   */
  lemma SecondRunIsCleanExactly(w: World, w': World, db: Db, f: File)
    requires SameStore(w, w') && NormOk(w) && CanonicalDb(w, db)
    requires UniqueTitles(w, OrderedGoals(f.goals)) && UniqueRefs(w, OrderedTasks(f.tasks))
    requires forall e | e in OrderedTasks(f.tasks) :: !Blank(w, e.ref)
    requires Clean(Import(w, false, db, f))
    ensures Clean(Import(w', false, Import(w, false, db, f).db, f)) <==>
              forall e | e in OrderedTasks(f.tasks) :: Canonical(w, e.ref)
  {
    var g1, g2 := AtTasks(w, w', db, f);
    var gs, ts, refs := OrderedGoals(f.goals), OrderedTasks(f.tasks), Refs(f.tasks);
    var r1 := Import(w, false, db, f);
    TasksKeepGoals(w, false, refs, g1, ts);
    TasksKeepGoals(w', false, refs, g2, ts);
    GoalsReplayClean(w, w', Start(db), Start(r1.db), gs);
    TasksReplayClean(w, w', refs, g1, g2, ts);
  }

  // ----- the normalizer, and a file in another spelling -----

  predicate Space(c: char) {
    c == ' ' || c == '\t' || c == '\n' || c == '\r'
  }

  function Strip(s: string): (t: string)
    ensures t != [] ==> !Space(t[0]) && !Space(t[|t| - 1])
    ensures s == [] || (!Space(s[0]) && !Space(s[|s| - 1])) ==> t == s
  {
    if s == [] then s
    else if Space(s[0]) then Strip(s[1..])
    else if Space(s[|s| - 1]) then Strip(s[..|s| - 1])
    else s
  }

  function UpperChar(c: char): char {
    if 'a' <= c <= 'z' then ((c as int) - 32) as char else c
  }

  function Upper(s: string): string {
    seq(|s|, i requires 0 <= i < |s| => UpperChar(s[i]))
  }

  /** `_normalized_ref` on ASCII text. */
  function NormalRef(ref: string): Option<string> {
    var text := Upper(Strip(ref));
    if text == [] then None else Some(text)
  }

  lemma NormalRefIsStable(ref: string)
    ensures NormalRef(ref).Some? ==> NormalRef(NormalRef(ref).value) == NormalRef(ref)
  {
    var t := Upper(Strip(ref));
    assert Upper(t) == t;
  }

  const STORE := World(map[], {}, _ => Accepted, _ => true, _ => true, NormalRef, _ => "goal", _ => "card")
  const EMPTY_BOARD := Db(map[], map[], [], map[], {})
  const LOWER_CASE := File([], [TaskEntry("u3", None, None, None, None)])

  lemma LowerCaseFile()
    ensures NormalRef("u3") == Some("U3") && !Canonical(STORE, "u3") && !Blank(STORE, "u3")
    ensures NormOk(STORE) && CanonicalDb(STORE, EMPTY_BOARD)
    ensures OrderedGoals(LOWER_CASE.goals) == [] && OrderedTasks(LOWER_CASE.tasks) == LOWER_CASE.tasks
  {
    assert Strip("u3") == "u3" && Upper("u3") == "U3";
    assert "u3"[0] != "U3"[0];
    forall x | STORE.norm(x).Some? ensures STORE.norm(STORE.norm(x).value) == STORE.norm(x) {
      NormalRefIsStable(x);
    }
    var e := LOWER_CASE.tasks[0];
    var child := (e: TaskEntry) => e.parentRef.Some?;
    assert LOWER_CASE.tasks[..0] == [] && Where([], child, false) == [] && Where([], child, true) == [];
    assert Where(LOWER_CASE.tasks, child, false) == [] + [e] && Where(LOWER_CASE.tasks, child, true) == [] + [];
  }

  /** "u3" is created and stored as "U3"; importing the same file again refuses it. */
  lemma LowerCaseIsRefused()
    ensures var r1 := Import(STORE, false, EMPTY_BOARD, LOWER_CASE);
            var r2 := Import(STORE, false, r1.db, LOWER_CASE);
            && r1.tasks.created == ["u3"] && Clean(r1) && "U3" in r1.db.tasks
            && "u3" !in r2.tasks.skipped && "u3" in r2.tasks.refused && !Clean(r2)
  {
    LowerCaseFile();
    var e, s := LOWER_CASE.tasks[0], Start(EMPTY_BOARD);
    var refs := Refs(LOWER_CASE.tasks);
    var r1 := Import(STORE, false, EMPTY_BOARD, LOWER_CASE);
    assert Goals(STORE, false, s, []) == s && LOWER_CASE.tasks[1..] == [];
    assert r1 == Tasks(STORE, false, refs, TaskStep(STORE, false, refs, s, e), []) ==
        TaskStep(STORE, false, refs, s, e);
    assert TaskCase(STORE, false, refs, s, e) == Made("card", true);
    assert [] + ["u3"] == ["u3"];
    SecondRunSkipsExactly(STORE, STORE, EMPTY_BOARD, LOWER_CASE, "u3");
  }

  // ----- dry run -----

  /** Dry and real run agree on what is there for the entries still to come, and on who has an id. */
  ghost predicate GoalsInStep(w: World, dry: Progress, live: Progress, entries: seq<GoalEntry>) {
    && dry.goalIds.Keys == live.goalIds.Keys && dry.goals.planned == live.goals.created
    && dry.goals.skipped == live.goals.skipped
    && (forall e | e in entries && e.company in w.companies ::
          GoalKey(w, e) in dry.db.goals <==> GoalKey(w, e) in live.db.goals)
  }

  lemma {:induction false} DryGoals(w: World, dry: Progress, live: Progress, entries: seq<GoalEntry>)
    requires UniqueTitles(w, entries) && GoalsInStep(w, dry, live, entries)
    requires forall e | e in entries :: w.goalVerdict(e).Accepted?
    ensures GoalsInStep(w, Goals(w, true, dry, entries), Goals(w, false, live, entries), [])
    decreases |entries|
  {
    if entries != [] {
      var e, rest := entries[0], entries[1..];
      var d, l := GoalStep(w, true, dry, e), GoalStep(w, false, live, e);
      assert e in entries && forall x | x in rest :: x in entries;
      if e.company in w.companies {
        FirstTitleIsUnique(w, entries);
      }
      assert GoalsInStep(w, d, l, rest);
      assert forall i | 0 <= i < |rest| :: rest[i] == entries[i + 1];
      DryGoals(w, d, l, rest);
    }
  }

  ghost predicate TasksInStep(dry: Progress, live: Progress, entries: seq<TaskEntry>) {
    && dry.goalIds.Keys == live.goalIds.Keys && dry.taskIds.Keys == live.taskIds.Keys
    && dry.tasks.planned == live.tasks.created && dry.tasks.skipped == live.tasks.skipped
    && (forall e | e in entries :: e.ref in dry.db.tasks <==> e.ref in live.db.tasks)
  }

  /** The insert will not collide: the entry is found, or has no stored reference, or one that is not on the board. */
  predicate Fits(w: World, tasks: map<string, string>, e: TaskEntry) {
    e.ref in tasks || (w.norm(e.ref).Some? ==> w.norm(e.ref).value !in tasks)
  }

  /** Exactly then can the store take an acceptable entry that is not found. */
  lemma FitsMeans(w: World, tasks: map<string, string>, e: TaskEntry)
    requires w.taskAccepted(e)
    ensures Fits(w, tasks, e) <==> e.ref in tasks || Insertable(w, tasks, e)
  {
  }

  lemma DryTaskStep(w: World, refs: set<string>, dry: Progress, live: Progress, entries: seq<TaskEntry>)
    requires NormOk(w) && UniqueRefs(w, entries) && TasksInStep(dry, live, entries) && entries != []
    requires forall e | e in entries :: w.taskAccepted(e) && Fits(w, live.db.tasks, e)
    ensures TasksInStep(TaskStep(w, true, refs, dry, entries[0]), TaskStep(w, false, refs, live, entries[0]),
        entries[1..])
    ensures forall x | x in entries[1..] :: Fits(w, TaskStep(w, false, refs, live, entries[0]).db.tasks, x)
  {
    var e, rest := entries[0], entries[1..];
    assert e in entries;
    StepEffect(w, refs, live, e);
    DryStepEffect(w, refs, dry, e);
    StepExtends(w, refs, live, e);
    var after := TaskStep(w, false, refs, live, e).db.tasks;
    forall x | x in rest ensures (x.ref in live.db.tasks <==> x.ref in after) && Fits(w, after, x) {
      assert x in entries && Fits(w, live.db.tasks, x);
      if w.norm(e.ref).Some? {
        FirstRefIsUnique(w, entries, w.norm(e.ref).value);
        assert w.norm(x.ref) != w.norm(e.ref);
      }
    }
  }

  lemma DryStepEffect(w: World, refs: set<string>, s: Progress, e: TaskEntry)
    ensures var c, t := TaskCase(w, true, refs, s, e), TaskStep(w, true, refs, s, e);
            && t.goalIds == s.goalIds && t.db == s.db
            && t.taskIds.Keys == (if c.Found? || c.Planned? then s.taskIds.Keys + {e.ref} else s.taskIds.Keys)
            && t.tasks.planned == (if c.Planned? then s.tasks.planned + [e.ref] else s.tasks.planned)
            && t.tasks.skipped == (if c.Found? then s.tasks.skipped + [e.ref] else s.tasks.skipped)
  {
  }

  lemma {:induction false} DryTasks(w: World, refs: set<string>, dry: Progress, live: Progress, entries: seq<TaskEntry>)
    requires NormOk(w) && UniqueRefs(w, entries) && TasksInStep(dry, live, entries)
    requires forall e | e in entries :: w.taskAccepted(e) && Fits(w, live.db.tasks, e)
    ensures TasksInStep(Tasks(w, true, refs, dry, entries), Tasks(w, false, refs, live, entries), [])
    decreases |entries|
  {
    if entries != [] {
      var e, rest := entries[0], entries[1..];
      DryTaskStep(w, refs, dry, live, entries);
      assert forall x | x in rest :: x in entries;
      assert forall i | 0 <= i < |rest| :: rest[i] == entries[i + 1];
      DryTasks(w, refs, TaskStep(w, true, refs, dry, e), TaskStep(w, false, refs, live, e), rest);
    }
  }

  /**
   When the store accepts every entry it is offered (it refuses a reference that is on
   the board in another spelling), a dry run plans exactly what a real run creates, in order.
   */
  lemma DryRunPlansTheRealRun(w: World, db: Db, f: File)
    requires NormOk(w) && UniqueTitles(w, OrderedGoals(f.goals)) && UniqueRefs(w, OrderedTasks(f.tasks))
    requires forall e | e in OrderedGoals(f.goals) :: w.goalVerdict(e).Accepted?
    requires forall e | e in OrderedTasks(f.tasks) :: w.taskAccepted(e) && Fits(w, db.tasks, e)
    ensures var dry, live := Import(w, true, db, f), Import(w, false, db, f);
            && dry.goals.planned == live.goals.created && dry.goals.skipped == live.goals.skipped
            && dry.tasks.planned == live.tasks.created && dry.tasks.skipped == live.tasks.skipped
            && dry.db == db
  {
    var gs, ts, refs := OrderedGoals(f.goals), OrderedTasks(f.tasks), Refs(f.tasks);
    DryGoals(w, Start(db), Start(db), gs);
    var dry, live := Goals(w, true, Start(db), gs), Goals(w, false, Start(db), gs);
    GoalsKeepTasks(w, true, Start(db), gs);
    GoalsKeepTasks(w, false, Start(db), gs);
    DryTasks(w, refs, dry, live, ts);
    TasksKeepGoals(w, true, refs, dry, ts);
    TasksKeepGoals(w, false, refs, live, ts);
    DryGoalsWriteNothing(w, Start(db), gs);
    DryTasksWriteNothing(w, refs, dry, ts);
  }
}
