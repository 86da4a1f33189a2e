/**
 The park / recover protocol of `_run_adapter`: any number of processes share the
 `parked.json` map, every locked read-modify-write is one atomic step, every
 `get_parked_reason` is one unlocked read.
 */
module ParkProtocol {

  /** The keys of `parked.json`: `claude_stage.<model>`, `claude_account.<model>.<id>`, and the rest. */
  datatype Component = StageOf(model: string) | AccountOf(model: string, id: string) | Elsewhere(name: string)

  /** The two classifications that park; every other error is retried or reported. */
  datatype Outcome = AuthError | QuotaExhausted

  /** One persisted park record. */
  datatype Record = Record(outcome: Outcome, parkedAt: int)

  type Parked = map<Component, Record>

  /** The stage component and its enabled accounts, in rotation order. */
  datatype Config = Config(stage: Component, accounts: seq<Component>)

  /** The account list was inspected and is not empty; a stage key is never an account key. */
  predicate ValidConfig(cfg: Config) {
    cfg.accounts != [] && cfg.stage !in cfg.accounts
  }

  predicate AllParked(cfg: Config, parked: Parked) {
    forall a | a in cfg.accounts :: a in parked
  }

  /** The state the design wants to rule out: nothing left to try, and no stage record to say so. */
  predicate Gap(cfg: Config, parked: Parked) {
    AllParked(cfg, parked) && cfg.stage !in parked
  }

  // ----- the three locked read-modify-writes -----

  function Park(parked: Parked, component: Component, record: Record): (after: Parked)
    ensures component in after && after[component] == record
    ensures forall other | other != component :: Same(parked, after, other)
  {
    parked[component := record]
  }

  /** The component has the same record, or none, in both maps. */
  predicate Same(before: Parked, after: Parked, component: Component) {
    (component in before <==> component in after) && (component in before ==> before[component] == after[component])
  }

  function ClearOnRecovery(cfg: Config, parked: Parked): (after: Parked)
    ensures AllParked(cfg, parked) ==> after == parked
    ensures !AllParked(cfg, parked) ==> cfg.stage !in after
    ensures forall other | other != cfg.stage :: Same(parked, after, other)
    ensures Gap(cfg, after) ==> Gap(cfg, parked)
  {
    if AllParked(cfg, parked) then parked else parked - {cfg.stage}
  }

  /** The record with the greatest `parked_at`; the first such one on ties. */
  function MostRecent(records: seq<Record>): (r: Record)
    requires records != []
    ensures r in records
    ensures forall x | x in records :: x.parkedAt <= r.parkedAt
  {
    if |records| == 1 then records[0]
    else
      var rest := MostRecent(records[1..]);
      if records[0].parkedAt >= rest.parkedAt then records[0] else rest
  }

  /** Among equally new records it is the first one. */
  lemma {:induction false} MostRecentIsFirst(records: seq<Record>) returns (i: nat)
    requires records != []
    ensures i < |records| && records[i] == MostRecent(records)
    ensures forall j | 0 <= j < i :: records[j].parkedAt < records[i].parkedAt
  {
    i := 0;
    if |records| > 1 && records[0].parkedAt < MostRecent(records[1..]).parkedAt {
      var k := MostRecentIsFirst(records[1..]);
      i := k + 1;
    }
  }

  // ----- one caller -----

  /** What a provider call came back with, as `_run_adapter` sorts it. */
  datatype Answer = Ok | Terminal(outcome: Outcome) | Definitive | Retryable

  /** An answer that ends the rotation and confirms a recovery. */
  predicate Definite(answer: Answer) {
    answer.Ok? || answer.Definitive?
  }

  datatype Reply = FromProvider | StageBlocked | AllAccountsParked

  datatype Pc =
    | Candidate                              // about to read the stage record
    | CandidateScan(k: nat)                  // looking for an unparked account
    | Gate                                   // the stage short circuit
    | LoopHead(i: nat)                       // about to check account i
    | Calling(i: nat)                        // provider call in flight
    | Parking(i: nat, outcome: Outcome)       // about to park account i
    | Recovering                             // about to run the guarded stage clear
    | Confirm(k: nat)                        // re-reading account k after the loop
    | Gather(k: nat, records: seq<Record>)   // collecting the account records
    | StageRead(records: seq<Record>)        // is the stage already parked?
    | StagePark(record: Record)              // about to park the stage
    | StageReread                            // reading back what was just parked
    | FallbackGate                           // account state could not be inspected
    | FallbackCall
    | Done(reply: Reply)
    | Crashed
    | AssertionFailed                        // either `assert ... is not None` tripped

  /**
   `calls` logs every account handed to the provider and `got` the answers, `tried` says
   that `result` is no longer `None`, `parkedOne` that this call parked an account.
   */
  datatype Caller = Caller(pc: Pc, calls: seq<Component>, got: seq<Answer>, tried: bool, parkedOne: bool)

  datatype Env = Env(answer: Answer, now: int)

  function At(c: Caller, pc: Pc): Caller {
    c.(pc := pc)
  }

  /** The shared map after one step: only three program points write it. */
  function ParkedNext(cfg: Config, parked: Parked, pc: Pc, env: Env): Parked {
    match pc
    case Parking(i, outcome) =>
      if i < |cfg.accounts| then Park(parked, cfg.accounts[i], Record(outcome, env.now)) else parked
    case Recovering => ClearOnRecovery(cfg, parked)
    case StagePark(record) => Park(parked, cfg.stage, record)
    case _ => parked
  }

  /** The caller after one step, which reads at most one key of the shared map. */
  function CallerNext(cfg: Config, parked: Parked, c: Caller, env: Env): Caller {
    var n := |cfg.accounts|;
    match c.pc
    case Candidate => At(c, if cfg.stage in parked then CandidateScan(0) else Gate)
    case CandidateScan(k) =>
      At(c, if k >= n then Gate else if cfg.accounts[k] in parked then CandidateScan(k + 1) else LoopHead(0))
    case Gate => At(c, if cfg.stage in parked then Done(StageBlocked) else LoopHead(0))
    case LoopHead(i) =>
      if i >= n then At(c, Confirm(0))
      else if cfg.accounts[i] in parked then At(c, LoopHead(i + 1))
      else c.(pc := Calling(i), calls := c.calls + [cfg.accounts[i]], tried := true)
    case Calling(i) =>
      c.(got := c.got + [env.answer],
         pc := match env.answer
               case Ok => Recovering
               case Terminal(outcome) => Parking(i, outcome)
               case Definitive => Recovering
               case Retryable => LoopHead(i + 1))
    case Parking(i, outcome) => c.(pc := LoopHead(i + 1), parkedOne := true)
    case Recovering => At(c, Done(FromProvider))
    case Confirm(k) =>
      At(c, if k >= n then Gather(0, [])
            else if cfg.accounts[k] in parked then Confirm(k + 1)
            else if c.tried then Done(FromProvider)
            else AssertionFailed)
    case Gather(k, records) =>
      At(c, if k >= n then StageRead(records)
            else if cfg.accounts[k] in parked then Gather(k + 1, records + [parked[cfg.accounts[k]]])
            else Gather(k + 1, records))
    case StageRead(records) =>
      At(c, if cfg.stage in parked then Done(AllAccountsParked)
            else StagePark(Record(if records == [] then QuotaExhausted else MostRecent(records).outcome, env.now)))
    case StagePark(record) => At(c, StageReread)
    case StageReread => At(c, if cfg.stage in parked then Done(AllAccountsParked) else AssertionFailed)
    case FallbackGate => At(c, if cfg.stage in parked then Done(StageBlocked) else FallbackCall)
    case FallbackCall => At(c, Done(FromProvider))
    case _ => c
  }

  // ----- the whole system -----

  datatype World = World(parked: Parked, callers: seq<Caller>)

  datatype Action =
    | Run(who: nat, env: Env)
    | Arrive(inspectable: bool)
    | Crash(who: nat)
    | OtherComponent(component: Component, change: Parked)  // a process working on another stage

  function NewCaller(inspectable: bool): Caller {
    Caller(if inspectable then Candidate else FallbackGate, [], [], false, false)
  }

  function Next(cfg: Config, w: World, act: Action): World
    requires ValidConfig(cfg)
  {
    match act
    case Run(i, env) =>
      if i >= |w.callers| then w
      else
        World(ParkedNext(cfg, w.parked, w.callers[i].pc, env),
              w.callers[i := CallerNext(cfg, w.parked, w.callers[i], env)])
    case Arrive(inspectable) =>
      w.(callers := w.callers + [NewCaller(inspectable)])
    case Crash(i) =>
      if i >= |w.callers| || w.callers[i].pc.Done? then w
      else w.(callers := w.callers[i := At(w.callers[i], Crashed)])
    case OtherComponent(component, change) =>
      if component == cfg.stage || component in cfg.accounts then w
      else if component in change then w.(parked := w.parked[component := change[component]])
      else w.(parked := w.parked - {component})
  }

  /** The state after a whole schedule. */
  function After(cfg: Config, w: World, acts: seq<Action>): World
    requires ValidConfig(cfg)
    decreases |acts|
  {
    if acts == [] then w else After(cfg, Next(cfg, w, acts[0]), acts[1..])
  }

  predicate NoCrash(acts: seq<Action>) {
    forall act | act in acts :: !act.Crash?
  }

  /** A fresh system: nobody running, and not already inside the gap. */
  predicate Init(cfg: Config, w: World) {
    w.callers == [] && !Gap(cfg, w.parked)
  }

  // ----- the invariant -----

  /** Where a caller can be while it is still heading for the stage park. */
  predicate OnTheWay(c: Caller) {
    c.parkedOne && (c.pc.LoopHead? || c.pc.Confirm? || c.pc.Gather? || c.pc.StageRead? || c.pc.StagePark?)
  }

  predicate CallerInv(cfg: Config, parked: Parked, c: Caller) {
    var n := |cfg.accounts|;
    match c.pc
    case LoopHead(i) =>
      i <= n && (!c.tried ==> forall j | 0 <= j < i :: cfg.accounts[j] in parked)
    case Calling(i) => i < n && c.tried
    case Parking(i, _) => i < n && c.tried
    case Confirm(k) =>
      && k <= n
      && (forall j | 0 <= j < k :: cfg.accounts[j] in parked)
      && (!c.tried ==> AllParked(cfg, parked))
    case Gather(k, records) => k <= n && |records| == k && AllParked(cfg, parked)
    case StageRead(records) => records != [] && AllParked(cfg, parked)
    case StagePark(_) => AllParked(cfg, parked)
    case StageReread => AllParked(cfg, parked) && cfg.stage in parked
    case AssertionFailed => false
    case _ => true
  }

  predicate CallersInv(cfg: Config, w: World) {
    forall i | 0 <= i < |w.callers| :: CallerInv(cfg, w.parked, w.callers[i])
  }

  predicate Witnessed(cfg: Config, w: World) {
    Gap(cfg, w.parked) ==> exists i | 0 <= i < |w.callers| :: OnTheWay(w.callers[i])
  }

  predicate Inv(cfg: Config, w: World) {
    CallersInv(cfg, w) && Witnessed(cfg, w)
  }

  // ----- what anybody else may do to the map -----

  /** Account records only accumulate, and a stage record survives while every account is parked. */
  predicate Rely(cfg: Config, before: Parked, after: Parked) {
    && (forall a | a in cfg.accounts && a in before :: a in after)
    && (AllParked(cfg, before) && cfg.stage in before ==> cfg.stage in after)
  }

  lemma RelyTrans(cfg: Config, a: Parked, b: Parked, c: Parked)
    requires Rely(cfg, a, b) && Rely(cfg, b, c)
    ensures Rely(cfg, a, c)
  {
  }

  lemma OwnStepWithinRely(cfg: Config, parked: Parked, c: Caller, env: Env)
    requires ValidConfig(cfg)
    ensures Rely(cfg, parked, ParkedNext(cfg, parked, c.pc, env))
  {
  }

  /** Every action of every process, crash included, is within the rely. */
  lemma StepWithinRely(cfg: Config, w: World, act: Action)
    requires ValidConfig(cfg)
    ensures Rely(cfg, w.parked, Next(cfg, w, act).parked)
  {
    if act.Run? && act.who < |w.callers| {
      OwnStepWithinRely(cfg, w.parked, w.callers[act.who], act.env);
    }
  }

  lemma {:induction false} RunWithinRely(cfg: Config, w: World, acts: seq<Action>)
    requires ValidConfig(cfg)
    ensures Rely(cfg, w.parked, After(cfg, w, acts).parked)
    decreases |acts|
  {
    if acts != [] {
      var w' := Next(cfg, w, acts[0]);
      StepWithinRely(cfg, w, acts[0]);
      RunWithinRely(cfg, w', acts[1..]);
      RelyTrans(cfg, w.parked, w'.parked, After(cfg, w, acts).parked);
    }
  }

  /** A caller's own assertions are stable under the others. */
  lemma CallerInvStable(cfg: Config, before: Parked, after: Parked, c: Caller)
    requires Rely(cfg, before, after) && CallerInv(cfg, before, c)
    ensures CallerInv(cfg, after, c)
  {
  }

  lemma OwnStepKeepsInv(cfg: Config, parked: Parked, c: Caller, env: Env)
    requires ValidConfig(cfg) && CallerInv(cfg, parked, c)
    ensures CallerInv(cfg, ParkedNext(cfg, parked, c.pc, env), CallerNext(cfg, parked, c, env))
  {
    if c.pc.LoopHead? && c.pc.i >= |cfg.accounts| && !c.tried {
      assert AllParked(cfg, parked);
    }
    if c.pc.Confirm? && c.pc.k >= |cfg.accounts| {
      assert AllParked(cfg, parked);
    }
  }

  /** The caller that opens the gap is itself on the way, and one on the way stays so until it closes it. */
  lemma OwnStepWitness(cfg: Config, parked: Parked, c: Caller, env: Env)
    requires ValidConfig(cfg) && CallerInv(cfg, parked, c)
    requires Gap(cfg, ParkedNext(cfg, parked, c.pc, env))
    ensures OnTheWay(c) || !Gap(cfg, parked) ==> OnTheWay(CallerNext(cfg, parked, c, env))
  {
  }

  lemma NextKeepsInv(cfg: Config, w: World, act: Action)
    requires ValidConfig(cfg) && Inv(cfg, w) && !act.Crash?
    ensures Inv(cfg, Next(cfg, w, act))
  {
    var w' := Next(cfg, w, act);
    StepWithinRely(cfg, w, act);
    forall i | 0 <= i < |w'.callers| ensures CallerInv(cfg, w'.parked, w'.callers[i]) {
      if act.Run? && act.who == i && i < |w.callers| {
        OwnStepKeepsInv(cfg, w.parked, w.callers[i], act.env);
      } else if i < |w.callers| {
        CallerInvStable(cfg, w.parked, w'.parked, w.callers[i]);
      }
    }
    if Gap(cfg, w'.parked) {
      if act.Run? && act.who < |w.callers| {
        OwnStepWitness(cfg, w.parked, w.callers[act.who], act.env);
        if Gap(cfg, w.parked) {
          var i :| 0 <= i < |w.callers| && OnTheWay(w.callers[i]);
          assert OnTheWay(w'.callers[i]);
        } else {
          assert OnTheWay(w'.callers[act.who]);
        }
      } else {
        assert Gap(cfg, w.parked);
        var i :| 0 <= i < |w.callers| && OnTheWay(w.callers[i]);
        assert w'.callers[i] == w.callers[i];
      }
    }
  }

  /**
   In every interleaving of any number of callers without a crash, whenever all
   accounts are parked and the stage record is absent, some caller that parked an
   account is still on its way to the stage park; and neither assertion of the
   code can fail.
   */
  lemma {:induction false} InterleavingsKeepInv(cfg: Config, w: World, acts: seq<Action>)
    requires ValidConfig(cfg) && Inv(cfg, w) && NoCrash(acts)
    ensures Inv(cfg, After(cfg, w, acts))
    decreases |acts|
  {
    if acts != [] {
      NextKeepsInv(cfg, w, acts[0]);
      InterleavingsKeepInv(cfg, Next(cfg, w, acts[0]), acts[1..]);
    }
  }

  /** The two claims read off the invariant, from any start outside the gap. */
  lemma GapAlwaysHasWitness(cfg: Config, w: World, acts: seq<Action>)
    requires ValidConfig(cfg) && Init(cfg, w) && NoCrash(acts)
    ensures var w' := After(cfg, w, acts);
            && (Gap(cfg, w'.parked) ==>
                  exists i | 0 <= i < |w'.callers| :: OnTheWay(w'.callers[i]) && ParkedSome(w'.callers[i]))
            && (forall i | 0 <= i < |w'.callers| :: !w'.callers[i].pc.AssertionFailed?)
  {
    InterleavingsKeepInv(cfg, w, acts);
    AnswersAreHeeded(cfg, w, acts);
    var w' := After(cfg, w, acts);
    if Gap(cfg, w'.parked) {
      var i :| 0 <= i < |w'.callers| && OnTheWay(w'.callers[i]);
      assert Story(cfg, w'.parked, w'.callers[i]);
    }
  }

  /** Once every caller has returned, all accounts parked implies the stage record is present. */
  lemma QuiescentMeansStageParked(cfg: Config, w: World, acts: seq<Action>)
    requires ValidConfig(cfg) && Init(cfg, w) && NoCrash(acts)
    requires forall c | c in After(cfg, w, acts).callers :: c.pc.Done?
    ensures AllParked(cfg, After(cfg, w, acts).parked) ==> cfg.stage in After(cfg, w, acts).parked
  {
    InterleavingsKeepInv(cfg, w, acts);
  }

  // ----- every answer is heeded -----

  /** How many accounts of the list the caller has visited. */
  function Visited(cfg: Config, pc: Pc): nat {
    match pc
    case LoopHead(i) => i
    case Calling(i) => i + 1
    case Parking(i, _) => i + 1
    case Confirm(_) => |cfg.accounts|
    case Gather(_, _) => |cfg.accounts|
    case StageRead(_) => |cfg.accounts|
    case StagePark(_) => |cfg.accounts|
    case StageReread => |cfg.accounts|
    case Done(AllAccountsParked) => |cfg.accounts|
    case _ => 0
  }

  /** The first `n` accounts of the list were each handed to the provider or are parked. */
  predicate CoveredUpTo(cfg: Config, parked: Parked, c: Caller, n: nat) {
    forall j | 0 <= j < n && j < |cfg.accounts| :: cfg.accounts[j] in c.calls || cfg.accounts[j] in parked
  }

  lemma CoveredLater(cfg: Config, before: Parked, after: Parked, c: Caller, c': Caller, n: nat)
    requires CoveredUpTo(cfg, before, c, n) && Rely(cfg, before, after) && c.calls <= c'.calls
    ensures CoveredUpTo(cfg, after, c', n)
  {
    assert forall a | a in c.calls :: a in c'.calls;
    forall j | 0 <= j < n && j < |cfg.accounts| ensures cfg.accounts[j] in c'.calls || cfg.accounts[j] in after {
      assert cfg.accounts[j] in cfg.accounts;
    }
  }

  lemma WentOnLater(cfg: Config, before: Parked, after: Parked, c: Caller, c': Caller, n: nat)
    requires WentOn(before, c, n) && Rely(cfg, before, after) && CallsInList(cfg, c)
    requires c.calls <= c'.calls && c.got <= c'.got && |c'.got| <= |c'.calls|
    ensures WentOn(after, c', n)
  {
    forall k | 0 <= k < n ensures c'.got[k].Retryable? || (c'.got[k].Terminal? && c'.calls[k] in after) {
      assert c.calls[k] in c.calls;
    }
  }

  predicate BeforeLoop(pc: Pc) {
    pc.Candidate? || pc.CandidateScan? || pc.Gate? || pc.FallbackGate? || pc.FallbackCall?
  }

  /** Some terminal answer has been dealt with. */
  predicate ParkedSome(c: Caller) {
    exists k | 0 <= k < (if c.pc.Parking? then |c.got| - 1 else |c.got|) :: c.got[k].Terminal?
  }

  predicate GotDefinite(c: Caller) {
    c.got != [] && Definite(c.got[|c.got| - 1])
  }

  /** The answers before the `n`-th let the rotation go on, and the terminal ones among them parked their accounts. */
  predicate WentOn(parked: Parked, c: Caller, n: nat) {
    && n <= |c.got| <= |c.calls|
    && forall k | 0 <= k < n :: c.got[k].Retryable? || (c.got[k].Terminal? && c.calls[k] in parked)
  }

  /**
   What a caller's log says about where it is: accounts are visited one after the
   other, only a definite answer leads to recovery, and only then, or after the last
   account, does the call end with the provider's reply.
   */
  predicate Story(cfg: Config, parked: Parked, c: Caller) {
    && CoveredUpTo(cfg, parked, c, Visited(cfg, c.pc))
    && (BeforeLoop(c.pc) ==> c.calls == [])
    && (c.tried <==> c.calls != [])
    && (!c.pc.Crashed? ==> (c.parkedOne <==> ParkedSome(c)))
    && match c.pc
       case Calling(i) =>
         && |c.calls| == |c.got| + 1 && i < |cfg.accounts| && c.calls[|c.got|] == cfg.accounts[i]
         && WentOn(parked, c, |c.got|)
       case Parking(i, outcome) =>
         && |c.calls| == |c.got| > 0 && i < |cfg.accounts| && c.calls[|c.got| - 1] == cfg.accounts[i]
         && c.got[|c.got| - 1] == Terminal(outcome) && WentOn(parked, c, |c.got| - 1)
       case Recovering => |c.calls| == |c.got| && GotDefinite(c) && WentOn(parked, c, |c.got| - 1)
       case Done(FromProvider) =>
         && |c.calls| == |c.got|
         && (GotDefinite(c) ==> WentOn(parked, c, |c.got| - 1))
         && (!GotDefinite(c) ==> WentOn(parked, c, |c.got|))
         && (c.calls != [] && !GotDefinite(c) ==> CoveredUpTo(cfg, parked, c, |cfg.accounts|))
       case Crashed => true
       case _ => |c.calls| == |c.got| && WentOn(parked, c, |c.got|)
  }

  lemma StoryStable(cfg: Config, before: Parked, after: Parked, c: Caller)
    requires Rely(cfg, before, after) && Story(cfg, before, c) && CallsInList(cfg, c)
    ensures Story(cfg, after, c)
  {
    CoveredLater(cfg, before, after, c, c, Visited(cfg, c.pc));
    if c.pc == Done(FromProvider) && c.calls != [] && !GotDefinite(c) {
      CoveredLater(cfg, before, after, c, c, |cfg.accounts|);
    }
    var definite := c.pc == Done(FromProvider) && GotDefinite(c);
    var n := if c.pc.Parking? || c.pc.Recovering? || definite then |c.got| - 1 else |c.got|;
    if !c.pc.Crashed? {
      WentOnLater(cfg, before, after, c, c, n);
    }
  }

  predicate CallsInList(cfg: Config, c: Caller) {
    forall a | a in c.calls :: a in cfg.accounts
  }

  lemma OwnStepKeepsStory(cfg: Config, parked: Parked, c: Caller, env: Env)
    requires ValidConfig(cfg) && Story(cfg, parked, c) && CallsInList(cfg, c)
    ensures Story(cfg, ParkedNext(cfg, parked, c.pc, env), CallerNext(cfg, parked, c, env))
    ensures CallsInList(cfg, CallerNext(cfg, parked, c, env))
  {
    if c.pc.Calling? || c.pc.Parking? || c.pc.Recovering? {
      AnswerKeepsStory(cfg, parked, c, env);
    } else if c.pc.LoopHead? {
      VisitKeepsStory(cfg, parked, c, env);
    } else if c.pc.Done? || c.pc.Crashed? {
      assert CallerNext(cfg, parked, c, env) == c && ParkedNext(cfg, parked, c.pc, env) == parked;
    } else {
      ReadKeepsStory(cfg, parked, c, env);
    }
  }

  lemma VisitKeepsStory(cfg: Config, parked: Parked, c: Caller, env: Env)
    requires ValidConfig(cfg) && Story(cfg, parked, c) && CallsInList(cfg, c) && c.pc.LoopHead?
    ensures Story(cfg, parked, CallerNext(cfg, parked, c, env)) && CallsInList(cfg, CallerNext(cfg, parked, c, env))
  {
    var c' := CallerNext(cfg, parked, c, env);
    CoveredLater(cfg, parked, parked, c, c', c.pc.i);
    WentOnLater(cfg, parked, parked, c, c', |c.got|);
    if c.pc.i < |cfg.accounts| && cfg.accounts[c.pc.i] !in parked {
      assert c'.calls[|c.calls|] == cfg.accounts[c.pc.i];
      assert forall a | a in c'.calls :: a in c.calls || a == cfg.accounts[c.pc.i];
    }
  }

  /** All other steps make no call and get no answer. */
  lemma ReadKeepsStory(cfg: Config, parked: Parked, c: Caller, env: Env)
    requires ValidConfig(cfg) && Story(cfg, parked, c) && CallsInList(cfg, c)
    requires !(c.pc.Calling? || c.pc.Parking? || c.pc.Recovering? || c.pc.LoopHead? || c.pc.Done? || c.pc.Crashed?)
    ensures Story(cfg, ParkedNext(cfg, parked, c.pc, env), CallerNext(cfg, parked, c, env))
    ensures CallsInList(cfg, CallerNext(cfg, parked, c, env))
  {
    var parked', c' := ParkedNext(cfg, parked, c.pc, env), CallerNext(cfg, parked, c, env);
    ReadGoesOn(cfg, parked, c, env);
    OwnStepWithinRely(cfg, parked, c, env);
    CoveredLater(cfg, parked, parked', c, c', Visited(cfg, c.pc));
    WentOnLater(cfg, parked, parked', c, c', |c.got|);
    LastIsNotDefinite(parked', c');
  }

  lemma ReadGoesOn(cfg: Config, parked: Parked, c: Caller, env: Env)
    requires !(c.pc.Calling? || c.pc.Parking? || c.pc.Recovering? || c.pc.LoopHead? || c.pc.Done? || c.pc.Crashed?)
    ensures var c' := CallerNext(cfg, parked, c, env);
            && c'.calls == c.calls && c'.got == c.got && Visited(cfg, c'.pc) <= Visited(cfg, c.pc)
            && !(c'.pc.Calling? || c'.pc.Parking? || c'.pc.Recovering? || c'.pc.Crashed?)
            && (BeforeLoop(c'.pc) ==> BeforeLoop(c.pc))
            && (c'.pc == Done(FromProvider) ==> c.pc.FallbackCall? || c.pc.Confirm?)
  {
  }

  lemma LastIsNotDefinite(parked: Parked, c: Caller)
    requires WentOn(parked, c, |c.got|)
    ensures !GotDefinite(c)
  {
  }

  /** The three steps that deal with an answer. */
  lemma AnswerKeepsStory(cfg: Config, parked: Parked, c: Caller, env: Env)
    requires ValidConfig(cfg) && Story(cfg, parked, c) && CallsInList(cfg, c)
    requires c.pc.Calling? || c.pc.Parking? || c.pc.Recovering?
    ensures Story(cfg, ParkedNext(cfg, parked, c.pc, env), CallerNext(cfg, parked, c, env))
    ensures CallsInList(cfg, CallerNext(cfg, parked, c, env))
  {
    var parked', c' := ParkedNext(cfg, parked, c.pc, env), CallerNext(cfg, parked, c, env);
    OwnStepWithinRely(cfg, parked, c, env);
    CoveredLater(cfg, parked, parked', c, c', Visited(cfg, c.pc));
    WentOnLater(cfg, parked, parked', c, c', if c.pc.Calling? then |c.got| else |c.got| - 1);
  }

  predicate Stories(cfg: Config, w: World) {
    forall i | 0 <= i < |w.callers| :: Story(cfg, w.parked, w.callers[i]) && CallsInList(cfg, w.callers[i])
  }

  lemma NextKeepsStories(cfg: Config, w: World, act: Action)
    requires ValidConfig(cfg) && Stories(cfg, w)
    ensures Stories(cfg, Next(cfg, w, act))
  {
    var w' := Next(cfg, w, act);
    StepWithinRely(cfg, w, act);
    forall i | 0 <= i < |w'.callers| ensures Story(cfg, w'.parked, w'.callers[i]) && CallsInList(cfg, w'.callers[i]) {
      if i < |w.callers| {
        if act.Run? && act.who == i {
          OwnStepKeepsStory(cfg, w.parked, w.callers[i], act.env);
        } else if w'.callers[i] == w.callers[i] {
          StoryStable(cfg, w.parked, w'.parked, w.callers[i]);
        }
      }
    }
  }

  /** In every interleaving, crashes included, every caller's log tells that story. */
  lemma {:induction false} AnswersAreHeeded(cfg: Config, w: World, acts: seq<Action>)
    requires ValidConfig(cfg) && Stories(cfg, w)
    ensures Stories(cfg, After(cfg, w, acts))
    decreases |acts|
  {
    if acts != [] {
      NextKeepsStories(cfg, w, acts[0]);
      AnswersAreHeeded(cfg, Next(cfg, w, acts[0]), acts[1..]);
    }
  }

  /** So the stage record goes only behind a definite answer, while some account is unparked. */
  lemma StageGoesOnlyOnRecovery(cfg: Config, w: World, act: Action)
    requires ValidConfig(cfg) && Stories(cfg, w) && cfg.stage in w.parked && cfg.stage !in Next(cfg, w, act).parked
    ensures act.Run? && act.who < |w.callers| && GotDefinite(w.callers[act.who]) && !AllParked(cfg, w.parked)
  {
  }

  /**
   And a finished call reports the provider's reply only after a definite answer to its
   last call, or after every account of the list was called or is parked.
   */
  lemma ReplyComesLast(cfg: Config, w: World, acts: seq<Action>, i: nat)
    requires ValidConfig(cfg) && Stories(cfg, w) && i < |After(cfg, w, acts).callers|
    requires var c := After(cfg, w, acts).callers[i]; c.pc == Done(FromProvider) && c.calls != []
    ensures var w' := After(cfg, w, acts);
            GotDefinite(w'.callers[i]) || CoveredUpTo(cfg, w'.parked, w'.callers[i], |cfg.accounts|)
  {
    AnswersAreHeeded(cfg, w, acts);
  }

  /** A caller that crashes before it is done takes no further step. */
  lemma {:induction false} CrashIsFinal(cfg: Config, w: World, i: nat, acts: seq<Action>)
    requires ValidConfig(cfg) && i < |w.callers| && !w.callers[i].pc.Done?
    ensures var w' := After(cfg, Next(cfg, w, Crash(i)), acts);
            i < |w'.callers| && w'.callers[i] == At(w.callers[i], Crashed)
  {
    StaysCrashed(cfg, Next(cfg, w, Crash(i)), i, acts);
  }

  lemma {:induction false} StaysCrashed(cfg: Config, w: World, i: nat, acts: seq<Action>)
    requires ValidConfig(cfg) && i < |w.callers| && w.callers[i].pc.Crashed?
    ensures i < |After(cfg, w, acts).callers| && After(cfg, w, acts).callers[i] == w.callers[i]
    decreases |acts|
  {
    if acts != [] {
      StaysCrashed(cfg, Next(cfg, w, acts[0]), i, acts[1..]);
    }
  }

  /** One step hands a parked account to nobody. */
  lemma StepCallsNoParked(cfg: Config, w: World, act: Action, account: Component, j: nat)
    requires ValidConfig(cfg) && account in w.parked
    requires j < |Next(cfg, w, act).callers|
    ensures var before := if j < |w.callers| then w.callers[j].calls else [];
            var after := Next(cfg, w, act).callers[j].calls;
            after == before || exists other | other != account :: after == before + [other]
  {
    if act.Run? && act.who == j && j < |w.callers| {
      var c := w.callers[j];
      if c.pc.LoopHead? && c.pc.i < |cfg.accounts| && cfg.accounts[c.pc.i] !in w.parked {
        assert cfg.accounts[c.pc.i] != account;
      }
    }
  }

  /**
   Once an account is parked, no visit whose check comes later hands it to the
   provider: every caller's call log grows by other accounts only. Crashes allowed.
   */
  lemma {:induction false} NoCallAfterPark(cfg: Config, w: World, acts: seq<Action>, account: Component, j: nat)
    requires ValidConfig(cfg)
    requires account in cfg.accounts && account in w.parked
    requires j < |After(cfg, w, acts).callers|
    ensures account in After(cfg, w, acts).parked
    ensures var before := if j < |w.callers| then w.callers[j].calls else [];
            var after := After(cfg, w, acts).callers[j].calls;
            before <= after && account !in after[|before|..]
    decreases |acts|
  {
    if acts != [] {
      var w' := Next(cfg, w, acts[0]);
      StepWithinRely(cfg, w, acts[0]);
      NoCallAfterPark(cfg, w', acts[1..], account, j);
      if j < |w'.callers| {
        StepCallsNoParked(cfg, w, acts[0], account, j);
        var before := if j < |w.callers| then w.callers[j].calls else [];
        var middle := w'.callers[j].calls;
        var after := After(cfg, w', acts[1..]).callers[j].calls;
        LaterCalls(before, middle, after, account);
      }
    }
  }

  lemma LaterCalls(before: seq<Component>, middle: seq<Component>, after: seq<Component>, account: Component)
    requires before <= middle <= after && account !in middle[|before|..] && account !in after[|middle|..]
    ensures before <= after && account !in after[|before|..]
  {
    assert after[|before|..] == middle[|before|..] + after[|middle|..];
  }

  /**
   A caller that could not inspect the accounts reaches the provider only while the
   stage record is absent: with every account parked and nobody on the way to park the
   stage, it is refused.
   */
  lemma FallbackIsRefused(cfg: Config, w: World, acts: seq<Action>, i: nat, env: Env)
    requires ValidConfig(cfg) && Init(cfg, w) && NoCrash(acts)
    requires i < |After(cfg, w, acts).callers| && After(cfg, w, acts).callers[i].pc.FallbackGate?
    requires AllParked(cfg, After(cfg, w, acts).parked)
    requires forall c | c in After(cfg, w, acts).callers :: !OnTheWay(c)
    ensures Next(cfg, After(cfg, w, acts), Run(i, env)).callers[i].pc == Done(StageBlocked)
  {
    GapAlwaysHasWitness(cfg, w, acts);
  }

  /** The stage is parked with the outcome of the most recently parked account; the fallback outcome is never used. */
  lemma StageNamesNewestAccount(cfg: Config, parked: Parked, c: Caller, env: Env)
    requires CallerInv(cfg, parked, c) && c.pc.StageRead? && cfg.stage !in parked
    ensures exists r | r in c.pc.records :: (forall x | x in c.pc.records :: x.parkedAt <= r.parkedAt)
              && CallerNext(cfg, parked, c, env).pc == StagePark(Record(r.outcome, env.now))
  {
    assert MostRecent(c.pc.records) in c.pc.records;
  }

  // ----- progress once every account is parked -----

  /** Own steps left before the caller is done, when every account is parked. */
  function Rank(cfg: Config, pc: Pc): int {
    var n := |cfg.accounts|;
    match pc
    case Candidate => 9 + 4 * n
    case CandidateScan(k) => 8 + 3 * n + (n - k)
    case Gate => 7 + 3 * n
    case LoopHead(i) => 6 + 2 * n + (n - i)
    case Confirm(k) => 5 + n + (n - k)
    case Gather(k, _) => 4 + (n - k)
    case StageRead(_) => 3
    case StagePark(_) => 2
    case StageReread => 1
    case _ => 0
  }

  /** A caller that will refuse without a provider call, and leave the stage parked when it is done. */
  predicate Refusing(cfg: Config, parked: Parked, c: Caller) {
    && AllParked(cfg, parked)
    && CallerInv(cfg, parked, c)
    && (c.pc.CandidateScan? ==> c.pc.k <= |cfg.accounts|)
    && (c.pc.Done? ==> cfg.stage in parked)
    && !(c.pc.Calling? || c.pc.Parking? || c.pc.Recovering? || c.pc.FallbackGate? || c.pc.FallbackCall?
        || c.pc.Crashed?)
  }

  lemma RefusingRank(cfg: Config, parked: Parked, c: Caller, env: Env)
    requires ValidConfig(cfg) && Refusing(cfg, parked, c) && !c.pc.Done?
    ensures 0 <= Rank(cfg, CallerNext(cfg, parked, c, env).pc) < Rank(cfg, c.pc)
  {
    var n := |cfg.accounts|;
    match c.pc
    case CandidateScan(k) => assert k < n ==> cfg.accounts[k] in cfg.accounts;
    case LoopHead(i) => assert i < n ==> cfg.accounts[i] in cfg.accounts;
    case Confirm(k) => assert k < n ==> cfg.accounts[k] in cfg.accounts;
    case Gather(k, _) => assert k < n ==> cfg.accounts[k] in cfg.accounts;
    case _ =>
  }

  lemma RefusingStep(cfg: Config, parked: Parked, c: Caller, env: Env)
    requires ValidConfig(cfg) && Refusing(cfg, parked, c)
    ensures Refusing(cfg, ParkedNext(cfg, parked, c.pc, env), CallerNext(cfg, parked, c, env))
    ensures CallerNext(cfg, parked, c, env).calls == c.calls
  {
    var n := |cfg.accounts|;
    OwnStepKeepsInv(cfg, parked, c, env);
    OwnStepWithinRely(cfg, parked, c, env);
    match c.pc
    case CandidateScan(k) => assert k < n ==> cfg.accounts[k] in cfg.accounts;
    case LoopHead(i) => assert i < n ==> cfg.accounts[i] in cfg.accounts;
    case Confirm(k) => assert k < n ==> cfg.accounts[k] in cfg.accounts;
    case Gather(k, _) => assert k < n ==> cfg.accounts[k] in cfg.accounts;
    case _ =>
  }

  lemma RefusingStable(cfg: Config, before: Parked, after: Parked, c: Caller)
    requires Rely(cfg, before, after) && Refusing(cfg, before, c)
    ensures Refusing(cfg, after, c)
  {
    CallerInvStable(cfg, before, after, c);
  }

  /** How many of the scheduled steps belong to caller `i`. */
  function StepsOf(i: nat, acts: seq<Action>): nat {
    if acts == [] then 0
    else (if acts[0].Run? && acts[0].who == i then 1 else 0) + StepsOf(i, acts[1..])
  }

  /** Whatever the others do, crashes included, a refusing caller makes no call and finishes in `Rank` own steps. */
  lemma {:induction false} RefusingRun(cfg: Config, w: World, i: nat, acts: seq<Action>)
    requires ValidConfig(cfg) && i < |w.callers| && Refusing(cfg, w.parked, w.callers[i])
    requires Crash(i) !in acts
    ensures var w' := After(cfg, w, acts);
            && i < |w'.callers| && Refusing(cfg, w'.parked, w'.callers[i])
            && w'.callers[i].calls == w.callers[i].calls
            && (StepsOf(i, acts) >= Rank(cfg, w.callers[i].pc) ==> w'.callers[i].pc.Done?)
    decreases |acts|
  {
    if acts == [] {
      assert Rank(cfg, w.callers[i].pc) <= 0 ==> w.callers[i].pc.Done?;
    } else {
      var w' := Next(cfg, w, acts[0]);
      if acts[0].Run? && acts[0].who == i {
        RefusingStep(cfg, w.parked, w.callers[i], acts[0].env);
        if !w.callers[i].pc.Done? {
          RefusingRank(cfg, w.parked, w.callers[i], acts[0].env);
        }
      } else {
        StepWithinRely(cfg, w, acts[0]);
        RefusingStable(cfg, w.parked, w'.parked, w.callers[i]);
        assert w'.callers[i] == w.callers[i];
      }
      RefusingRun(cfg, w', i, acts[1..]);
    }
  }

  /**
   A call that arrives when every account is parked makes no provider call; within
   a fixed number of its own steps it is done, and then the stage record is present.
   Nothing is assumed about the stage record or about callers that crashed earlier.
   */
  lemma AllParkedCallRefuses(cfg: Config, w: World, acts: seq<Action>)
    requires ValidConfig(cfg) && AllParked(cfg, w.parked)
    requires Crash(|w.callers|) !in acts
    ensures var me := |w.callers|;
            var w' := After(cfg, Next(cfg, w, Arrive(true)), acts);
            && me < |w'.callers| && w'.callers[me].calls == []
            && (w'.callers[me].pc.Done? ==> cfg.stage in w'.parked)
            && (StepsOf(me, acts) >= 9 + 4 * |cfg.accounts| ==> w'.callers[me].pc.Done?)
  {
    RefusingRun(cfg, Next(cfg, w, Arrive(true)), |w.callers|, acts);
  }

  /** The gap is only ever a window: a caller is already committed to closing it, whatever the others do. */
  lemma GapIsClosed(cfg: Config, w: World)
    requires ValidConfig(cfg) && Inv(cfg, w) && Gap(cfg, w.parked)
    ensures exists i | 0 <= i < |w.callers| :: OnTheWay(w.callers[i]) &&
              forall acts | Crash(i) !in acts && StepsOf(i, acts) >= Rank(cfg, w.callers[i].pc) ::
                cfg.stage in After(cfg, w, acts).parked
  {
    var i :| 0 <= i < |w.callers| && OnTheWay(w.callers[i]);
    forall acts | Crash(i) !in acts && StepsOf(i, acts) >= Rank(cfg, w.callers[i].pc)
      ensures cfg.stage in After(cfg, w, acts).parked
    {
      RefusingRun(cfg, w, i, acts);
    }
  }

  // ----- the "at every instant" claim, exactly -----

  lemma {:induction false} AfterAppend(cfg: Config, w: World, a: seq<Action>, b: seq<Action>)
    requires ValidConfig(cfg)
    ensures After(cfg, w, a + b) == After(cfg, After(cfg, w, a), b)
    decreases |a|
  {
    if a == [] {
      assert a + b == b;
    } else {
      assert (a + b)[1..] == a[1..] + b;
      AfterAppend(cfg, Next(cfg, w, a[0]), a[1..], b);
    }
  }

  function Move(i: nat, answer: Answer): Action {
    Run(i, Env(answer, 0))
  }

  lemma AfterFirst(cfg: Config, w: World, a: Action, rest: seq<Action>)
    requires ValidConfig(cfg)
    ensures After(cfg, w, [a] + rest) == After(cfg, Next(cfg, w, a), rest)
  {
    assert ([a] + rest)[1..] == rest;
  }

  /** One step of one caller, spelled out. */
  lemma MoveIs(cfg: Config, w: World, i: nat, answer: Answer)
    requires ValidConfig(cfg) && i < |w.callers|
    ensures var w', env := Next(cfg, w, Move(i, answer)), Env(answer, 0);
            && |w'.callers| == |w.callers| && w'.callers[i] == CallerNext(cfg, w.parked, w.callers[i], env)
            && w'.parked == ParkedNext(cfg, w.parked, w.callers[i].pc, env)
  {
  }

  /** The newest caller visits account `i`, which is unparked, gets a terminal answer and parks it. */
  lemma ParkNext(cfg: Config, w: World, i: nat) returns (w': World, acts: seq<Action>)
    requires ValidConfig(cfg) && w.callers != [] && i < |cfg.accounts| && cfg.accounts[i] !in w.parked
    requires w.callers[|w.callers| - 1].pc == LoopHead(i)
    ensures NoCrash(acts) && forall rest :: After(cfg, w, acts + rest) == After(cfg, w', rest)
    ensures w'.callers != [] && w'.callers[|w'.callers| - 1].pc == LoopHead(i + 1)
    ensures w'.parked == Park(w.parked, cfg.accounts[i], Record(AuthError, 0))
  {
    var me := |w.callers| - 1;
    var first := Next(cfg, w, Move(me, Ok));
    MoveIs(cfg, w, me, Ok);
    var second := Next(cfg, first, Move(me, Terminal(AuthError)));
    MoveIs(cfg, first, me, Terminal(AuthError));
    w' := Next(cfg, second, Move(me, Ok));
    MoveIs(cfg, second, me, Ok);
    acts := [Move(me, Ok), Move(me, Terminal(AuthError)), Move(me, Ok)];
    forall rest ensures After(cfg, w, acts + rest) == After(cfg, w', rest) {
      AfterThree(cfg, w, Move(me, Ok), Move(me, Terminal(AuthError)), Move(me, Ok), rest);
    }
  }

  lemma AfterThree(cfg: Config, w: World, a: Action, b: Action, c: Action, rest: seq<Action>)
    requires ValidConfig(cfg)
    ensures After(cfg, w, [a, b, c] + rest) == After(cfg, Next(cfg, Next(cfg, Next(cfg, w, a), b), c), rest)
  {
    AfterFirst(cfg, w, a, [b] + ([c] + rest));
    AfterFirst(cfg, Next(cfg, w, a), b, [c] + rest);
    AfterFirst(cfg, Next(cfg, Next(cfg, w, a), b), c, rest);
    assert [a, b, c] + rest == [a] + ([b] + ([c] + rest));
  }

  /** A caller at the loop head can park everything that is left. */
  lemma {:induction false} ParkTheRest(cfg: Config, w: World, i: nat) returns (acts: seq<Action>)
    requires ValidConfig(cfg) && w.callers != [] && i <= |cfg.accounts|
    requires w.callers[|w.callers| - 1].pc == LoopHead(i)
    requires forall j | 0 <= j < i :: cfg.accounts[j] in w.parked
    requires cfg.stage !in w.parked
    ensures NoCrash(acts) && Gap(cfg, After(cfg, w, acts).parked)
    decreases |cfg.accounts| - i
  {
    if i == |cfg.accounts| {
      acts := [];
    } else {
      if cfg.accounts[i] in w.parked {
        var me := |w.callers| - 1;
        var rest := ParkTheRest(cfg, Next(cfg, w, Move(me, Ok)), i + 1);
        AfterFirst(cfg, w, Move(me, Ok), rest);
        acts := [Move(me, Ok)] + rest;
      } else {
        var w', park := ParkNext(cfg, w, i);
        var rest := ParkTheRest(cfg, w', i + 1);
        acts := park + rest;
      }
    }
  }

  /** A caller scanning for a candidate falls through to the loop at the first unparked account `u`. */
  lemma {:induction false} ScanReachesLoop(cfg: Config, w: World, k: nat, u: nat) returns (acts: seq<Action>)
    requires ValidConfig(cfg) && w.callers != [] && k <= u < |cfg.accounts|
    requires w.callers[|w.callers| - 1].pc == CandidateScan(k)
    requires cfg.accounts[u] !in w.parked && forall j | k <= j < u :: cfg.accounts[j] in w.parked
    ensures NoCrash(acts)
    ensures var w' := After(cfg, w, acts);
            w'.parked == w.parked && w'.callers != [] && w'.callers[|w'.callers| - 1].pc == LoopHead(0)
    decreases u - k
  {
    var me := |w.callers| - 1;
    var w' := Next(cfg, w, Move(me, Ok));
    if k == u {
      acts := [Move(me, Ok)];
      assert After(cfg, w', acts[1..]) == w';
    } else {
      var rest := ScanReachesLoop(cfg, w', k + 1, u);
      acts := [Move(me, Ok)] + rest;
    }
  }

  /** A successful call to the first unparked account clears the stage. */
  lemma {:induction false} LoopClearsStage(cfg: Config, w: World, i: nat, u: nat) returns (acts: seq<Action>)
    requires ValidConfig(cfg) && w.callers != [] && i <= u < |cfg.accounts|
    requires w.callers[|w.callers| - 1].pc == LoopHead(i)
    requires cfg.accounts[u] !in w.parked && forall j | i <= j < u :: cfg.accounts[j] in w.parked
    ensures NoCrash(acts) && After(cfg, w, acts).parked == w.parked - {cfg.stage}
    decreases u - i
  {
    var me := |w.callers| - 1;
    var w1 := Next(cfg, w, Move(me, Ok));
    if i == u {
      var w2 := Next(cfg, w1, Move(me, Ok));
      var w3 := Next(cfg, w2, Move(me, Ok));
      assert After(cfg, w2, [Move(me, Ok)]) == w3;
      assert [Move(me, Ok), Move(me, Ok)][1..] == [Move(me, Ok)];
      assert After(cfg, w1, [Move(me, Ok), Move(me, Ok)]) == w3;
      acts := [Move(me, Ok)] + [Move(me, Ok), Move(me, Ok)];
      assert acts[1..] == [Move(me, Ok), Move(me, Ok)];
    } else {
      var rest := LoopClearsStage(cfg, w1, i + 1, u);
      acts := [Move(me, Ok)] + rest;
    }
  }

  lemma FirstUnparked(cfg: Config, parked: Parked) returns (u: nat)
    requires !AllParked(cfg, parked)
    ensures u < |cfg.accounts| && cfg.accounts[u] !in parked
    ensures forall j | 0 <= j < u :: cfg.accounts[j] in parked
  {
    u := 0;
    while cfg.accounts[u] in parked
      invariant u < |cfg.accounts|
      invariant forall j | 0 <= j < u :: cfg.accounts[j] in parked
      decreases |cfg.accounts| - u
    {
      u := u + 1;
    }
  }

  lemma StageClearSchedule(cfg: Config, w: World) returns (acts: seq<Action>)
    requires ValidConfig(cfg) && cfg.stage in w.parked && !AllParked(cfg, w.parked)
    ensures NoCrash(acts) && After(cfg, w, acts).parked == w.parked - {cfg.stage}
  {
    var u := FirstUnparked(cfg, w.parked);
    var me := |w.callers|;
    var w1 := Next(cfg, w, Arrive(true));
    var w2 := Next(cfg, w1, Move(me, Ok));
    var scan := ScanReachesLoop(cfg, w2, 0, u);
    var clear := LoopClearsStage(cfg, After(cfg, w2, scan), 0, u);
    AfterAppend(cfg, w2, scan, clear);
    acts := [Arrive(true)] + ([Move(me, Ok)] + (scan + clear));
    assert ([Move(me, Ok)] + (scan + clear))[1..] == scan + clear;
    assert After(cfg, w1, [Move(me, Ok)] + (scan + clear)) == After(cfg, w2, scan + clear);
  }

  lemma GapSchedule(cfg: Config, w: World) returns (acts: seq<Action>)
    requires ValidConfig(cfg) && !AllParked(cfg, w.parked)
    ensures NoCrash(acts) && Gap(cfg, After(cfg, w, acts).parked)
    decreases cfg.stage in w.parked
  {
    if cfg.stage in w.parked {
      var clear := StageClearSchedule(cfg, w);
      var w' := After(cfg, w, clear);
      assert !AllParked(cfg, w'.parked) by {
        var a :| a in cfg.accounts && a !in w.parked;
        assert a !in w'.parked;
      }
      var rest := GapSchedule(cfg, w');
      AfterAppend(cfg, w, clear, rest);
      acts := clear + rest;
    } else {
      var me := |w.callers|;
      var w1 := Next(cfg, w, Arrive(true));
      var w2 := Next(cfg, w1, Move(me, Ok));
      var w3 := Next(cfg, w2, Move(me, Ok));
      var rest := ParkTheRest(cfg, w3, 0);
      acts := [Arrive(true)] + ([Move(me, Ok)] + ([Move(me, Ok)] + rest));
      assert ([Move(me, Ok)] + rest)[1..] == rest;
      assert After(cfg, w2, [Move(me, Ok)] + rest) == After(cfg, w3, rest);
      assert ([Move(me, Ok)] + ([Move(me, Ok)] + rest))[1..] == [Move(me, Ok)] + rest;
      assert After(cfg, w1, [Move(me, Ok)] + ([Move(me, Ok)] + rest)) == After(cfg, w2, [Move(me, Ok)] + rest);
    }
  }

  /**
   "All parked implies stage present" at every instant of every crash-free run: it
   holds exactly when every account is parked already. From any other start two
   callers are enough to open the window.
   */
  lemma InstantClaimExactly(cfg: Config, w: World)
    requires ValidConfig(cfg) && Init(cfg, w)
    ensures (forall acts | NoCrash(acts) :: !Gap(cfg, After(cfg, w, acts).parked))
       <==> AllParked(cfg, w.parked)
  {
    if AllParked(cfg, w.parked) {
      forall acts | NoCrash(acts) ensures !Gap(cfg, After(cfg, w, acts).parked) {
        RunWithinRely(cfg, w, acts);
      }
    } else {
      var acts := GapSchedule(cfg, w);
      assert NoCrash(acts);
    }
  }

  // ----- the code of one call, in its own form -----

  /** The account is the first of the list without a record. */
  ghost predicate FirstFree(cfg: Config, parked: Parked, account: Component) {
    exists u | 0 <= u < |cfg.accounts| ::
      cfg.accounts[u] == account && account !in parked && forall j | 0 <= j < u :: cfg.accounts[j] in parked
  }

  /** The records of the accounts, in list order. */
  function RecordsOf(cfg: Config, parked: Parked, n: nat): seq<Record>
    requires n <= |cfg.accounts|
  {
    if n == 0 then []
    else
      var a := cfg.accounts[n - 1];
      RecordsOf(cfg, parked, n - 1) + if a in parked then [parked[a]] else []
  }

  /** One provider call of this call: the account and what came back. */
  datatype Call = Call(account: Component, answer: Answer)

  datatype Rotation = Rotation(parked: Parked, made: seq<Call>, finished: bool)

  /** What an undisturbed rotation does from account `i` on, if account `j` would answer `answers[j]`. */
  function RotateFrom(cfg: Config, parked: Parked, answers: seq<Answer>, now: int, i: nat): Rotation
    requires i <= |cfg.accounts| == |answers|
    decreases |answers| - i
  {
    if i == |answers| then Rotation(parked, [], false)
    else
      var account := cfg.accounts[i];
      if account in parked then RotateFrom(cfg, parked, answers, now, i + 1)
      else if Definite(answers[i]) then Rotation(ClearOnRecovery(cfg, parked), [Call(account, answers[i])], true)
      else
        var after := if answers[i].Terminal? then Park(parked, account, Record(answers[i].outcome, now)) else parked;
        Onward([Call(account, answers[i])], RotateFrom(cfg, after, answers, now, i + 1))
  }

  function Onward(made: seq<Call>, r: Rotation): Rotation {
    r.(made := made + r.made)
  }

  /** An undisturbed rotation that has made these calls before it turns to account `i`. */
  ghost predicate AloneSoFar(cfg: Config, start: Parked, parked: Parked, made: seq<Call>, answers: seq<Answer>,
                             now: int, i: nat)
    requires i <= |cfg.accounts| == |answers|
  {
    && RotateFrom(cfg, start, answers, now, 0) == Onward(made, RotateFrom(cfg, parked, answers, now, i))
    && (made == [] ==> parked == start && forall j | 0 <= j < i :: cfg.accounts[j] in start)
    && (made != [] ==> FirstFree(cfg, start, made[0].account))
  }

  lemma AloneTurn(cfg: Config, start: Parked, parked: Parked, after: Parked, answers: seq<Answer>, now: int, i: nat,
                  made: seq<Call>)
    requires i < |cfg.accounts| == |answers| && AloneSoFar(cfg, start, parked, made, answers, now, i)
    ensures var call := Call(cfg.accounts[i], answers[i]);
            if cfg.accounts[i] in parked
            then after == parked ==> AloneSoFar(cfg, start, after, made, answers, now, i + 1)
            else
              && FirstFree(cfg, start, (made + [call])[0].account)
              && (Definite(answers[i]) && after == ClearOnRecovery(cfg, parked) ==>
                    RotateFrom(cfg, start, answers, now, 0) == Rotation(after, made + [call], true))
              && (!Definite(answers[i]) && after == (if answers[i].Terminal?
                                                     then Park(parked, cfg.accounts[i], Record(answers[i].outcome, now))
                                                     else parked) ==>
                    AloneSoFar(cfg, start, after, made + [call], answers, now, i + 1))
  {
    OneTurn(cfg, parked, after, answers, now, i, made);
    if made == [] && cfg.accounts[i] !in parked {
      FirstFreeAt(cfg, start, i);
    }
  }

  /** How one turn at account `i`, after the calls `made`, moves the rotation on. */
  lemma OneTurn(cfg: Config, parked: Parked, after: Parked, answers: seq<Answer>, now: int, i: nat, made: seq<Call>)
    requires i < |cfg.accounts| == |answers|
    ensures var call := Call(cfg.accounts[i], answers[i]);
            var whole := Onward(made, RotateFrom(cfg, parked, answers, now, i));
            if cfg.accounts[i] in parked
            then after == parked ==> whole == Onward(made, RotateFrom(cfg, after, answers, now, i + 1))
            else if Definite(answers[i])
            then after == ClearOnRecovery(cfg, parked) ==> whole == Rotation(after, made + [call], true)
            else after == (if answers[i].Terminal?
                           then Park(parked, cfg.accounts[i], Record(answers[i].outcome, now)) else parked)
                 ==> whole == Onward(made + [call], RotateFrom(cfg, after, answers, now, i + 1))
  {
    OnwardTwice(made, [Call(cfg.accounts[i], answers[i])], RotateFrom(cfg, after, answers, now, i + 1));
  }

  lemma OnwardTwice(a: seq<Call>, b: seq<Call>, r: Rotation)
    ensures Onward(a, Onward(b, r)) == Onward(a + b, r)
  {
    assert a + (b + r.made) == (a + b) + r.made;
  }

  datatype Effect = Effect(parked: Parked, made: seq<Call>, reply: Reply)

  /** The map after the all-parked result: a missing stage record takes the outcome of the newest account record. */
  function StageParked(cfg: Config, parked: Parked, now: int): Parked {
    var records := RecordsOf(cfg, parked, |cfg.accounts|);
    if cfg.stage in parked || records == [] then parked
    else Park(parked, cfg.stage, Record(MostRecent(records).outcome, now))
  }

  /**
   A whole undisturbed call: refused over a parked stage unless some account is free,
   otherwise one rotation, and the all-parked result if that leaves nothing to try.
   */
  function Adapter(cfg: Config, parked: Parked, answers: seq<Answer>, now: int): Effect
    requires |cfg.accounts| == |answers|
  {
    if cfg.stage in parked && AllParked(cfg, parked) then Effect(parked, [], StageBlocked)
    else
      var r := RotateFrom(cfg, parked, answers, now, 0);
      if r.finished || !AllParked(cfg, r.parked) then Effect(r.parked, r.made, FromProvider)
      else Effect(StageParked(cfg, r.parked, now), r.made, AllAccountsParked)
  }

  // ----- one caller of the protocol, undisturbed, is that call -----

  datatype Local = Local(parked: Parked, c: Caller)

  /** The caller's next own step, at time `now`, with the answer its call would get. */
  function OwnEnv(pc: Pc, answers: seq<Answer>, now: int): Env {
    Env(if pc.Calling? && pc.i < |answers| then answers[pc.i] else Ok, now)
  }

  function OwnStep(cfg: Config, s: Local, answers: seq<Answer>, now: int): Local {
    var env := OwnEnv(s.c.pc, answers, now);
    Local(ParkedNext(cfg, s.parked, s.c.pc, env), CallerNext(cfg, s.parked, s.c, env))
  }

  function OwnSteps(cfg: Config, s: Local, answers: seq<Answer>, now: int, n: nat): Local
    decreases n
  {
    if n == 0 then s else OwnSteps(cfg, OwnStep(cfg, s, answers, now), answers, now, n - 1)
  }

  lemma {:induction false} OwnStepsAdd(cfg: Config, s: Local, answers: seq<Answer>, now: int, m: nat, n: nat)
    ensures OwnSteps(cfg, s, answers, now, m + n) == OwnSteps(cfg, OwnSteps(cfg, s, answers, now, m), answers, now, n)
    decreases m
  {
    if m > 0 {
      OwnStepsAdd(cfg, OwnStep(cfg, s, answers, now), answers, now, m - 1, n);
    }
  }

  function AccountsOf(made: seq<Call>): seq<Component> {
    if made == [] then [] else [made[0].account] + AccountsOf(made[1..])
  }

  function AnswersOf(made: seq<Call>): seq<Answer> {
    if made == [] then [] else [made[0].answer] + AnswersOf(made[1..])
  }

  lemma {:induction false} ScanPhase(cfg: Config, s: Local, answers: seq<Answer>, now: int, k: nat) returns (n: nat)
    requires s.c.pc == CandidateScan(k) && k <= |cfg.accounts|
    requires forall j | 0 <= j < k :: cfg.accounts[j] in s.parked
    ensures OwnSteps(cfg, s, answers, now, n) ==
            s.(c := At(s.c, if AllParked(cfg, s.parked) then Gate else LoopHead(0)))
    decreases |cfg.accounts| - k
  {
    n := 1;
    var next := OwnStep(cfg, s, answers, now);
    assert OwnSteps(cfg, s, answers, now, 1) == OwnSteps(cfg, next, answers, now, 0);
    if k < |cfg.accounts| && cfg.accounts[k] in s.parked {
      var rest := ScanPhase(cfg, next, answers, now, k + 1);
      n := 1 + rest;
    }
  }

  /** The machine's loop from account `i` on is the rotation. */
  lemma {:induction false} LoopPhase(cfg: Config, s: Local, answers: seq<Answer>, now: int, i: nat) returns (n: nat)
    requires s.c.pc == LoopHead(i) && i <= |cfg.accounts| == |answers|
    ensures var e, r := OwnSteps(cfg, s, answers, now, n), RotateFrom(cfg, s.parked, answers, now, i);
            && e.parked == r.parked && e.c.pc == (if r.finished then Done(FromProvider) else Confirm(0))
            && e.c.calls == s.c.calls + AccountsOf(r.made) && e.c.got == s.c.got + AnswersOf(r.made)
            && (e.c.tried <==> s.c.tried || r.made != [])
    decreases |answers| - i
  {
    if i == |answers| {
      n := 1;
      assert OwnSteps(cfg, s, answers, now, 1) == OwnSteps(cfg, OwnStep(cfg, s, answers, now), answers, now, 0);
    } else if cfg.accounts[i] in s.parked {
      var rest := LoopPhase(cfg, OwnStep(cfg, s, answers, now), answers, now, i + 1);
      n := 1 + rest;
    } else {
      var m, s' := CallPhase(cfg, s, answers, now, i);
      if Definite(answers[i]) {
        n := m;
        assert [Call(cfg.accounts[i], answers[i])][1..] == [];
      } else {
        var rest := LoopPhase(cfg, s', answers, now, i + 1);
        n := m + rest;
        OwnStepsAdd(cfg, s, answers, now, m, rest);
        var r := RotateFrom(cfg, s'.parked, answers, now, i + 1);
        FirstCall(Call(cfg.accounts[i], answers[i]), r.made, s.c.calls, s.c.got);
      }
    }
  }

  lemma FirstCall(call: Call, made: seq<Call>, calls: seq<Component>, got: seq<Answer>)
    ensures calls + AccountsOf([call] + made) == (calls + [call.account]) + AccountsOf(made)
    ensures got + AnswersOf([call] + made) == (got + [call.answer]) + AnswersOf(made)
  {
    assert ([call] + made)[1..] == made;
  }

  /** One call of the machine: the visit, the answer, and what the answer asks for. */
  lemma CallPhase(cfg: Config, s: Local, answers: seq<Answer>, now: int, i: nat) returns (n: nat, s': Local)
    requires s.c.pc == LoopHead(i) && i < |cfg.accounts| == |answers| && cfg.accounts[i] !in s.parked
    ensures s' == OwnSteps(cfg, s, answers, now, n)
    ensures s'.c.calls == s.c.calls + [cfg.accounts[i]] && s'.c.got == s.c.got + [answers[i]] && s'.c.tried
    ensures s'.c.pc == if Definite(answers[i]) then Done(FromProvider) else LoopHead(i + 1)
    ensures s'.parked == if Definite(answers[i]) then ClearOnRecovery(cfg, s.parked)
                         else if answers[i].Terminal?
                         then Park(s.parked, cfg.accounts[i], Record(answers[i].outcome, now)) else s.parked
  {
    var s1 := OwnStep(cfg, s, answers, now);
    var s2 := OwnStep(cfg, s1, answers, now);
    var s3 := OwnStep(cfg, s2, answers, now);
    ThreeSteps(cfg, s, answers, now);
    if answers[i].Retryable? {
      n, s' := 2, s2;
    } else {
      n, s' := 3, s3;
    }
  }

  lemma ThreeSteps(cfg: Config, s: Local, answers: seq<Answer>, now: int)
    ensures var s1 := OwnStep(cfg, s, answers, now);
            var s2 := OwnStep(cfg, s1, answers, now);
            && OwnSteps(cfg, s, answers, now, 1) == s1
            && OwnSteps(cfg, s, answers, now, 2) == s2
            && OwnSteps(cfg, s, answers, now, 3) == OwnStep(cfg, s2, answers, now)
  {
    var s1 := OwnStep(cfg, s, answers, now);
    var s2 := OwnStep(cfg, s1, answers, now);
    var s3 := OwnStep(cfg, s2, answers, now);
    assert OwnSteps(cfg, s3, answers, now, 0) == s3;
    assert OwnSteps(cfg, s2, answers, now, 1) == s3;
    assert OwnSteps(cfg, s1, answers, now, 2) == s3 && OwnSteps(cfg, s1, answers, now, 1) == s2;
  }

  lemma {:induction false} ConfirmPhase(cfg: Config, s: Local, answers: seq<Answer>, now: int, k: nat) returns (n: nat)
    requires s.c.pc == Confirm(k) && k <= |cfg.accounts| && (s.c.tried || AllParked(cfg, s.parked))
    requires forall j | 0 <= j < k :: cfg.accounts[j] in s.parked
    ensures OwnSteps(cfg, s, answers, now, n) ==
            s.(c := At(s.c, if AllParked(cfg, s.parked) then Gather(0, []) else Done(FromProvider)))
    decreases |cfg.accounts| - k
  {
    n := 1;
    var next := OwnStep(cfg, s, answers, now);
    assert OwnSteps(cfg, s, answers, now, 1) == OwnSteps(cfg, next, answers, now, 0);
    if k < |cfg.accounts| && cfg.accounts[k] in s.parked {
      var rest := ConfirmPhase(cfg, next, answers, now, k + 1);
      n := 1 + rest;
    }
  }

  lemma {:induction false} GatherPhase(cfg: Config, s: Local, answers: seq<Answer>, now: int, k: nat) returns (n: nat)
    requires k <= |cfg.accounts| && s.c.pc == Gather(k, RecordsOf(cfg, s.parked, k))
    ensures OwnSteps(cfg, s, answers, now, n) == s.(c := At(s.c, StageRead(RecordsOf(cfg, s.parked, |cfg.accounts|))))
    decreases |cfg.accounts| - k
  {
    n := 1;
    var next := OwnStep(cfg, s, answers, now);
    assert OwnSteps(cfg, s, answers, now, 1) == OwnSteps(cfg, next, answers, now, 0);
    if k < |cfg.accounts| {
      assert RecordsOf(cfg, s.parked, k) + [] == RecordsOf(cfg, s.parked, k);
      var rest := GatherPhase(cfg, next, answers, now, k + 1);
      n := 1 + rest;
    }
  }

  lemma {:induction false} RecordsThere(cfg: Config, parked: Parked, n: nat)
    requires n <= |cfg.accounts| && AllParked(cfg, parked)
    ensures |RecordsOf(cfg, parked, n)| == n
  {
    if n > 0 {
      RecordsThere(cfg, parked, n - 1);
    }
  }

  /** From the re-read on: the all-parked result, or the last answer. */
  lemma EndPhase(cfg: Config, s: Local, answers: seq<Answer>, now: int) returns (n: nat)
    requires ValidConfig(cfg) && s.c.pc == Confirm(0) && (s.c.tried || AllParked(cfg, s.parked))
    ensures var e := OwnSteps(cfg, s, answers, now, n);
            && e.c.calls == s.c.calls && e.c.got == s.c.got
            && (if AllParked(cfg, s.parked)
                then e.parked == StageParked(cfg, s.parked, now) && e.c.pc == Done(AllAccountsParked)
                else e.parked == s.parked && e.c.pc == Done(FromProvider))
  {
    n := ConfirmPhase(cfg, s, answers, now, 0);
    if AllParked(cfg, s.parked) {
      var gather := OwnSteps(cfg, s, answers, now, n);
      var m := GatherPhase(cfg, gather, answers, now, 0);
      OwnStepsAdd(cfg, s, answers, now, n, m);
      var last := StagePhase(cfg, OwnSteps(cfg, gather, answers, now, m), answers, now);
      OwnStepsAdd(cfg, s, answers, now, n + m, last);
      n := n + m + last;
    }
  }

  /** The stage is parked from the records read, unless it is parked already. */
  lemma StagePhase(cfg: Config, s: Local, answers: seq<Answer>, now: int) returns (n: nat)
    requires ValidConfig(cfg) && s.c.pc == StageRead(RecordsOf(cfg, s.parked, |cfg.accounts|))
        && AllParked(cfg, s.parked)
    ensures OwnSteps(cfg, s, answers, now, n) ==
            Local(StageParked(cfg, s.parked, now), At(s.c, Done(AllAccountsParked)))
  {
    RecordsThere(cfg, s.parked, |cfg.accounts|);
    ThreeSteps(cfg, s, answers, now);
    n := if cfg.stage in s.parked then 1 else 3;
  }

  lemma {:induction false} NoCallMeansAllParked(cfg: Config, parked: Parked, answers: seq<Answer>, now: int, i: nat)
    requires i <= |cfg.accounts| == |answers| && forall j | 0 <= j < i :: cfg.accounts[j] in parked
    ensures RotateFrom(cfg, parked, answers, now, i).made == [] ==>
              RotateFrom(cfg, parked, answers, now, i).parked == parked && AllParked(cfg, parked)
    decreases |answers| - i
  {
    if i < |answers| && cfg.accounts[i] in parked {
      NoCallMeansAllParked(cfg, parked, answers, now, i + 1);
    }
  }

  /**
   A caller that takes its own steps only, from its arrival on, ends with exactly the
   calls, answers, map and reply of the undisturbed call.
   */
  lemma UndisturbedCall(cfg: Config, parked: Parked, answers: seq<Answer>, now: int) returns (n: nat)
    requires ValidConfig(cfg) && |answers| == |cfg.accounts|
    ensures var e := OwnSteps(cfg, Local(parked, NewCaller(true)), answers, now, n);
            var a := Adapter(cfg, parked, answers, now);
            && e.parked == a.parked && e.c.pc == Done(a.reply)
            && e.c.calls == AccountsOf(a.made) && e.c.got == AnswersOf(a.made)
  {
    var s := Local(parked, NewCaller(true));
    var m := EntryPhase(cfg, s, answers, now);
    var entered := OwnSteps(cfg, s, answers, now, m);
    if cfg.stage in parked && AllParked(cfg, parked) {
      n := m;
    } else {
      var k := LoopPhase(cfg, entered, answers, now, 0);
      OwnStepsAdd(cfg, s, answers, now, m, k);
      n := m + k;
      var r := RotateFrom(cfg, parked, answers, now, 0);
      if !r.finished {
        NoCallMeansAllParked(cfg, parked, answers, now, 0);
        var last := EndPhase(cfg, OwnSteps(cfg, s, answers, now, n), answers, now);
        OwnStepsAdd(cfg, s, answers, now, n, last);
        n := n + last;
      }
    }
  }

  /** The recovery candidate check and the stage short circuit. */
  lemma EntryPhase(cfg: Config, s: Local, answers: seq<Answer>, now: int) returns (n: nat)
    requires ValidConfig(cfg) && s.c == NewCaller(true)
    ensures OwnSteps(cfg, s, answers, now, n) ==
            s.(c := At(s.c, if cfg.stage in s.parked && AllParked(cfg, s.parked) then Done(StageBlocked)
                            else LoopHead(0)))
  {
    ThreeSteps(cfg, s, answers, now);
    if cfg.stage !in s.parked {
      n := 2;
    } else {
      var scan := OwnSteps(cfg, s, answers, now, 1);
      var k := ScanPhase(cfg, scan, answers, now, 0);
      OwnStepsAdd(cfg, s, answers, now, 1, k);
      n := 1 + k;
      if AllParked(cfg, s.parked) {
        ThreeSteps(cfg, OwnSteps(cfg, s, answers, now, n), answers, now);
        OwnStepsAdd(cfg, s, answers, now, n, 1);
        n := n + 1;
      }
    }
  }

  /** Those own steps are a schedule of the protocol in which nobody else moves. */
  lemma {:induction false} OwnStepsAreARun(cfg: Config, w: World, me: nat, answers: seq<Answer>, now: int, n: nat)
    returns (acts: seq<Action>)
    requires ValidConfig(cfg) && me < |w.callers|
    ensures forall act | act in acts :: act.Run? && act.who == me && act.env.now == now
    ensures var e := OwnSteps(cfg, Local(w.parked, w.callers[me]), answers, now, n);
            After(cfg, w, acts) == World(e.parked, w.callers[me := e.c])
    decreases n
  {
    if n == 0 {
      acts := [];
      assert w.callers[me := w.callers[me]] == w.callers;
    } else {
      var act := Run(me, OwnEnv(w.callers[me].pc, answers, now));
      var w' := Next(cfg, w, act);
      var rest := OwnStepsAreARun(cfg, w', me, answers, now, n - 1);
      acts := [act] + rest;
      AfterFirst(cfg, w, act, rest);
      var e := OwnSteps(cfg, Local(w.parked, w.callers[me]), answers, now, n);
      assert w.callers[me := w'.callers[me]][me := e.c] == w.callers[me := e.c];
    }
  }

  // ----- what the code keeps under interference -----

  /** The last call made, if any, was answered definitely. */
  predicate EndedDefinitely(made: seq<Call>) {
    made != [] && Definite(made[|made| - 1].answer)
  }

  /** The records that the terminal answers ask for, in order. */
  function ParksOf(made: seq<Call>, now: int): seq<(Component, Record)> {
    if made == [] then []
    else
      var last := made[|made| - 1];
      ParksOf(made[..|made| - 1], now)
      + if last.answer.Terminal? then [(last.account, Record(last.answer.outcome, now))] else []
  }

  lemma ParksOfPush(made: seq<Call>, c: Call, now: int)
    ensures ParksOf(made + [c], now) ==
            ParksOf(made, now) + if c.answer.Terminal? then [(c.account, Record(c.answer.outcome, now))] else []
  {
    assert (made + [c])[..|made|] == made;
  }

  /**
   Every call so far left the rotation going: it could be retried elsewhere, or it was
   terminal and parked its account.
   */
  predicate Rotated(parked: Parked, made: seq<Call>) {
    forall c | c in made :: c.answer.Retryable? || (c.answer.Terminal? && c.account in parked)
  }

  /** Only accounts of the list that were not parked at the start. */
  predicate OnlyFree(cfg: Config, start: Parked, made: seq<Call>) {
    forall c | c in made :: c.account in cfg.accounts && c.account !in start
  }

  /** A rotation, however disturbed, that has made these calls before it turns to account `i`. */
  predicate Turned(cfg: Config, start: Parked, parked: Parked, made: seq<Call>, i: nat) {
    && OnlyFree(cfg, start, made) && Rotated(parked, made)
    && (made == [] ==> forall j | 0 <= j < i && j < |cfg.accounts| :: cfg.accounts[j] in parked)
  }

  lemma RotatedLater(cfg: Config, start: Parked, before: Parked, after: Parked, made: seq<Call>)
    requires Rotated(before, made) && OnlyFree(cfg, start, made) && Rely(cfg, before, after)
    ensures Rotated(after, made)
  {
  }

  /** One more call, of an account that was free when it was checked. */
  lemma MadePush(cfg: Config, start: Parked, before: Parked, after: Parked, made: seq<Call>, call: Call)
    requires Rotated(before, made) && OnlyFree(cfg, start, made) && Rely(cfg, start, before) && Rely(cfg, before, after)
    requires call.account in cfg.accounts && call.account !in before
    requires Definite(call.answer) || call.answer.Retryable? || call.account in after
    ensures OnlyFree(cfg, start, made + [call]) && (made + [call])[..|made|] == made && Rotated(after, made)
    ensures !Definite(call.answer) ==> Rotated(after, made + [call])
  {
    RotatedLater(cfg, start, before, after, made);
    forall c | c in made + [call]
      ensures c.account in cfg.accounts && c.account !in start
      ensures !Definite(call.answer) ==> c.answer.Retryable? || (c.answer.Terminal? && c.account in after)
    {
      assert c in made || c == call;
    }
  }

  lemma FirstFreeAt(cfg: Config, start: Parked, i: nat)
    requires i < |cfg.accounts| && cfg.accounts[i] !in start && forall j | 0 <= j < i :: cfg.accounts[j] in start
    ensures FirstFree(cfg, start, cfg.accounts[i])
  {
  }

  /** One record more, for this component. */
  predicate OneMore(log: seq<(Component, Record)>, longer: seq<(Component, Record)>, component: Component) {
    |longer| == |log| + 1 && log <= longer && longer[|log|].0 == component
  }

  /**
   `parked.json` together with the logs of the provider calls and of the records this
   call makes. If `alone`, no other process touches the file meanwhile.
   */
  class ParkedFile {
    const alone: bool
    var state: Parked
    var calls: seq<Call>
    ghost var parks: seq<(Component, Record)>

    constructor (state: Parked, alone: bool)
      ensures this.state == state && calls == [] && parks == [] && this.alone == alone
    {
      this.state, this.alone := state, alone;
      calls, parks := [], [];
    }

    /** Any number of steps of any number of other processes. */
    method Others(cfg: Config)
      modifies this`state
      ensures Rely(cfg, old(state), state)
      ensures alone ==> state == old(state)
    {
      var seen: Parked := *;
      if !alone && Rely(cfg, state, seen) {
        state := seen;
      }
    }

    method GetParkedReason(cfg: Config, component: Component) returns (found: bool, record: Record)
      modifies this`state
      ensures Rely(cfg, old(state), state)
      ensures alone ==> state == old(state)
      ensures found == (component in state) && (found ==> record == state[component])
    {
      Others(cfg);
      found := component in state;
      record := if found then state[component] else Record(AuthError, 0);
    }

    method ParkComponent(cfg: Config, component: Component, record: Record)
      modifies this`state, this`parks
      ensures parks == old(parks) + [(component, record)]
      ensures Rely(cfg, old(state), state)
      ensures exists mid :: Rely(cfg, old(state), mid) && state == Park(mid, component, record)
      ensures alone ==> state == Park(old(state), component, record)
    {
      Others(cfg);
      state := Park(state, component, record);
      parks := parks + [(component, record)];
    }

    method ClearStageOnRecovery(cfg: Config)
      requires ValidConfig(cfg)
      modifies this`state
      ensures Rely(cfg, old(state), state)
      ensures exists mid :: Rely(cfg, old(state), mid) && state == ClearOnRecovery(cfg, mid)
      ensures alone ==> state == ClearOnRecovery(cfg, old(state))
    {
      Others(cfg);
      state := ClearOnRecovery(cfg, state);
    }

    /** `_maybe_recovery_candidate`. */
    method MaybeRecoveryCandidate(cfg: Config) returns (candidate: bool)
      modifies this`state
      ensures Rely(cfg, old(state), state)
      ensures AllParked(cfg, old(state)) ==> !candidate
      ensures alone ==> state == old(state) && (candidate <==> cfg.stage in state && !AllParked(cfg, state))
    {
      var stageParked, _ := GetParkedReason(cfg, cfg.stage);
      if !stageParked {
        return false;
      }
      for k := 0 to |cfg.accounts|
        invariant Rely(cfg, old(state), state) && (alone ==> state == old(state))
        invariant alone ==> forall j | 0 <= j < k :: cfg.accounts[j] in state
      {
        var parked, _ := GetParkedReason(cfg, cfg.accounts[k]);
        if !parked {
          return true;
        }
      }
      return false;
    }

    /** `_all_accounts_parked_result`: both the record list and the read-back are never empty. */
    method AllAccountsParkedResult(cfg: Config, now: int)
      requires ValidConfig(cfg) && AllParked(cfg, state)
      modifies this`state, this`parks
      ensures parks == old(parks) || OneMore(old(parks), parks, cfg.stage)
      ensures AllParked(cfg, state) && cfg.stage in state
      ensures Rely(cfg, old(state), state)
      // a missing stage record takes the outcome of the newest account record; a present one stays
      ensures alone ==>
                var records := RecordsOf(cfg, old(state), |cfg.accounts|);
                && records != []
                && state == StageParked(cfg, old(state), now)
    {
      var records := [];
      for k := 0 to |cfg.accounts|
        invariant Rely(cfg, old(state), state) && |records| == k && parks == old(parks)
        invariant alone ==> state == old(state) && records == RecordsOf(cfg, state, k)
      {
        var parked, record := GetParkedReason(cfg, cfg.accounts[k]);
        if parked {
          records := records + [record];
        }
      }
      var newest := MostRecent(records);
      var already, _ := GetParkedReason(cfg, cfg.stage);
      if !already {
        ParkComponent(cfg, cfg.stage, Record(newest.outcome, now));
        var written, _ := GetParkedReason(cfg, cfg.stage);
        assert written;
      }
    }

    /** The account loop. `finished` means the last answer ended the call; `made` are its provider calls. */
    method RotateAccounts(cfg: Config, answers: seq<Answer>, now: int) returns (finished: bool, ghost made: seq<Call>)
      requires ValidConfig(cfg) && |answers| == |cfg.accounts|
      modifies this
      ensures Rely(cfg, old(state), state)
      ensures calls == old(calls) + made && OnlyFree(cfg, old(state), made)
      ensures !finished ==> Rotated(state, made)
      ensures finished ==> EndedDefinitely(made) && Rotated(state, made[..|made| - 1])
      ensures finished ==> cfg.stage !in state || AllParked(cfg, state)
      ensures made == [] ==> AllParked(cfg, state)
      // the records written are exactly those the terminal answers ask for
      ensures parks == old(parks) + ParksOf(made, now)
      ensures alone && made != [] ==> FirstFree(cfg, old(state), made[0].account)
      ensures alone && made == [] ==> state == old(state)
      ensures alone ==> Rotation(state, made, finished) == RotateFrom(cfg, old(state), answers, now, 0)
      ensures alone && finished ==> made[|made| - 1].account !in state
    {
      finished, made := false, [];
      for i := 0 to |cfg.accounts|
        invariant Rely(cfg, old(state), state) && calls == old(calls) + made && parks == old(parks) + ParksOf(made, now)
        invariant Turned(cfg, old(state), state, made, i)
        invariant alone ==> AloneSoFar(cfg, old(state), state, made, answers, now, i)
      {
        ghost var was := state;
        var call := Call(cfg.accounts[i], answers[i]);
        var called := VisitAccount(cfg, call, now);
        if alone {
          AloneTurn(cfg, old(state), was, state, answers, now, i, made);
        }
        if called {
          ParksOfPush(made, call, now);
          MadePush(cfg, old(state), was, state, made, call);
          made := made + [call];
          if Definite(call.answer) {
            finished := true;
            return;
          }
        } else {
          RotatedLater(cfg, old(state), was, state, made);
        }
      }
    }

    /** One turn of the loop: skip a parked account, otherwise make the call and act on its answer. */
    method VisitAccount(cfg: Config, call: Call, now: int) returns (called: bool)
      requires ValidConfig(cfg) && call.account in cfg.accounts
      modifies this
      ensures Rely(cfg, old(state), state)
      ensures !called ==> calls == old(calls) && parks == old(parks) && call.account in state
      ensures !called && alone ==> state == old(state)
      ensures called ==> calls == old(calls) + [call] && call.account !in old(state)
      ensures called ==>
                parks == old(parks)
                         + if call.answer.Terminal? then [(call.account, Record(call.answer.outcome, now))] else []
      ensures called && call.answer.Terminal? ==> call.account in state
      ensures called && Definite(call.answer) ==> cfg.stage !in state || AllParked(cfg, state)
      ensures called && alone ==>
                state == if call.answer.Terminal? then Park(old(state), call.account, Record(call.answer.outcome, now))
                         else if Definite(call.answer) then ClearOnRecovery(cfg, old(state)) else old(state)
    {
      var parked, _ := GetParkedReason(cfg, call.account);
      called := !parked;
      if called {
        calls := calls + [call];
        match call.answer
        case Ok =>
          ClearStageOnRecovery(cfg);
        case Terminal(outcome) =>
          ParkComponent(cfg, call.account, Record(outcome, now));
        case Definitive =>
          ClearStageOnRecovery(cfg);
        case Retryable =>
      }
    }

    /** The re-read of every account after the loop. */
    method ConfirmAllParked(cfg: Config) returns (all: bool)
      modifies this`state
      ensures Rely(cfg, old(state), state)
      ensures all <==> AllParked(cfg, state)
      ensures AllParked(cfg, old(state)) ==> all
      ensures alone ==> state == old(state)
    {
      for k := 0 to |cfg.accounts|
        invariant Rely(cfg, old(state), state) && (alone ==> state == old(state))
        invariant forall j | 0 <= j < k :: cfg.accounts[j] in state
      {
        var parked, _ := GetParkedReason(cfg, cfg.accounts[k]);
        if !parked {
          return false;
        }
      }
      return true;
    }

    /**
     `_run_adapter` past the inspection of the account list, with other processes
     running between any two accesses and `made` the provider calls; both assertions of
     the source are proved in place.
     */
    method RunAdapter(cfg: Config, answers: seq<Answer>, now: int) returns (reply: Reply, ghost made: seq<Call>)
      requires ValidConfig(cfg) && |answers| == |cfg.accounts|
      modifies this
      // left alone: the whole effect of the call
      ensures alone ==> Effect(state, made, reply) == Adapter(cfg, old(state), answers, now)
      ensures Rely(cfg, old(state), state)
      // an account parked on entry is never handed to the provider
      ensures calls == old(calls) + made && OnlyFree(cfg, old(state), made)
      // started with everything parked: no call, and the stage record is there at the end
      ensures AllParked(cfg, old(state)) ==> made == [] && cfg.stage in state && reply != FromProvider
      // left alone, it always tries the first unparked account, also while the stage is parked
      ensures alone && !AllParked(cfg, old(state)) ==> made != [] && FirstFree(cfg, old(state), made[0].account)
      // the all-parked refusal is never returned over a missing stage record
      ensures reply == AllAccountsParked ==> AllParked(cfg, state) && cfg.stage in state
      ensures reply == FromProvider ==> made != []
      // every terminal answer parked its account; only the last answer can end the rotation
      ensures Rotated(state, if EndedDefinitely(made) then made[..|made| - 1] else made)
      // a definite answer from an account clears the stage unless everything is parked by then
      ensures EndedDefinitely(made) ==> reply == FromProvider && (cfg.stage !in state || AllParked(cfg, state))
      // an exhausted rotation that still answers saw some account unparked after its last park
      ensures reply == FromProvider && !EndedDefinitely(made) ==> !AllParked(cfg, state)
      // so it closes every gap it opens: it can leave one only behind a definite answer, and only one
      // that others opened
      ensures Gap(cfg, state) ==> !alone && EndedDefinitely(made)
      // the records written are those of the terminal answers, and then perhaps the stage's
      ensures var log := old(parks) + ParksOf(made, now);
              parks == log || (reply == AllAccountsParked && OneMore(log, parks, cfg.stage))
    {
      made := [];
      var candidate := MaybeRecoveryCandidate(cfg);
      if !candidate {
        var blocked, _ := GetParkedReason(cfg, cfg.stage);
        if blocked {
          return StageBlocked, made;
        }
      }
      ghost var entered := state;
      var finished;
      finished, made := RotateAccounts(cfg, answers, now);
      FreeEarlier(cfg, old(state), entered, made);
      if finished {
        assert made[|made| - 1] in made;
        return FromProvider, made;
      }
      NotDefinite(state, made);
      ghost var rotated := state;
      var all := ConfirmAllParked(cfg);
      if all {
        AllAccountsParkedResult(cfg, now);
        reply := AllAccountsParked;
      } else {
        assert made != [];
        reply := FromProvider;
      }
      RotatedLater(cfg, entered, rotated, state, made);
    }
  }

  lemma FreeEarlier(cfg: Config, earlier: Parked, start: Parked, made: seq<Call>)
    requires OnlyFree(cfg, start, made) && Rely(cfg, earlier, start)
    ensures OnlyFree(cfg, earlier, made)
    ensures AllParked(cfg, earlier) ==> made == []
  {
    if made != [] {
      assert made[0] in made;
    }
  }

  lemma NotDefinite(parked: Parked, made: seq<Call>)
    requires Rotated(parked, made)
    ensures !EndedDefinitely(made)
  {
    if made != [] {
      assert made[|made| - 1] in made;
    }
  }
}
