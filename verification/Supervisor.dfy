/**
 The process supervisor: a rolling restart budget kept in a pruned history, and a
 TERM/KILL shutdown that reports success only when it saw every group gone.
 Times are integers in any fixed unit of the monotonic clock.
 */
module Supervisor {

  // ----- restart times -----

  predicate Ascending(times: seq<int>) {
    forall i, j | 0 <= i < j < |times| :: times[i] <= times[j]
  }

  predicate NotAfter(times: seq<int>, now: int) {
    forall i | 0 <= i < |times| :: times[i] <= now
  }

  /** The entries `_restart_allowed` keeps at time `now`. */
  function Recent(times: seq<int>, now: int, window: int): seq<int> {
    if times == [] then []
    else (if now - times[0] < window then [times[0]] else []) + Recent(times[1..], now, window)
  }

  /** The budget rule applied to a complete restart log. */
  predicate Allowed(log: seq<int>, now: int, budget: int, window: int) {
    budget > 0 && |Recent(log, now, window)| < budget
  }

  /** The `budget + 1` successive restarts that start with number `i` span at least the window. */
  predicate SpanAt(times: seq<int>, i: nat, budget: nat, window: int) {
    i + budget < |times| ==> times[i + budget] - times[i] >= window
  }

  /** Any `budget + 1` successive restarts span at least the window. */
  ghost predicate Spaced(times: seq<int>, budget: nat, window: int) {
    forall i: nat :: SpanAt(times, i, budget, window)
  }

  /** `kept` is the log with only expired entries dropped from its front. */
  ghost predicate PrunedFrom(kept: seq<int>, log: seq<int>, now: int, window: int) {
    && |kept| <= |log| && kept == log[|log| - |kept|..]
    && forall i | 0 <= i < |log| - |kept| :: now - log[i] >= window
  }

  /** Entries that expired stay expired, so dropping them never changes a later decision. */
  lemma {:induction false} ExpiredPrefix(log: seq<int>, k: nat, now: int, window: int)
    requires k <= |log| && forall i | 0 <= i < k :: now - log[i] >= window
    ensures Recent(log, now, window) == Recent(log[k..], now, window)
    decreases k
  {
    if k == 0 {
      assert log[0..] == log;
    } else {
      ExpiredPrefix(log[1..], k - 1, now, window);
      assert log[1..][k - 1..] == log[k..];
    }
  }

  lemma PrunedDecidesAlike(kept: seq<int>, log: seq<int>, pruned: int, now: int, window: int)
    requires PrunedFrom(kept, log, pruned, window) && pruned <= now
    ensures Recent(kept, now, window) == Recent(log, now, window)
  {
    ExpiredPrefix(log, |log| - |kept|, now, window);
  }

  /** In an ascending log the recent entries are a suffix. */
  lemma {:induction false} RecentIsSuffix(log: seq<int>, now: int, window: int)
    requires Ascending(log)
    ensures PrunedFrom(Recent(log, now, window), log, now, window)
  {
    if log != [] {
      RecentIsSuffix(log[1..], now, window);
      if now - log[0] < window {
        AllRecent(log, now, window);
      } else {
        var r := Recent(log[1..], now, window);
        assert Recent(log, now, window) == r;
        assert log[1..][|log| - 1 - |r|..] == log[|log| - |r|..];
        forall i | 0 <= i < |log| - |r| ensures now - log[i] >= window {
          assert i > 0 ==> log[i] == log[1..][i - 1];
        }
      }
    }
  }

  lemma {:induction false} AllRecent(log: seq<int>, now: int, window: int)
    requires forall i | 0 <= i < |log| :: now - log[i] < window
    ensures Recent(log, now, window) == log
  {
    if log != [] {
      AllRecent(log[1..], now, window);
    }
  }

  lemma PruneAgain(kept: seq<int>, log: seq<int>, pruned: int, now: int, window: int)
    requires Ascending(log) && PrunedFrom(kept, log, pruned, window) && pruned <= now
    ensures PrunedFrom(Recent(kept, now, window), log, now, window)
  {
    PrunedDecidesAlike(kept, log, pruned, now, window);
    RecentIsSuffix(log, now, window);
  }

  /** A restart the budget allows keeps the log spaced, even if it is stamped later than it was allowed. */
  lemma AllowedKeepsSpaced(log: seq<int>, now: int, at: int, budget: nat, window: int)
    requires Ascending(log) && NotAfter(log, now) && now <= at
    requires Spaced(log, budget, window) && Allowed(log, now, budget, window)
    ensures Spaced(log + [at], budget, window) && Ascending(log + [at]) && NotAfter(log + [at], at)
  {
    RecentIsSuffix(log, now, window);
    forall i: nat ensures SpanAt(log + [at], i, budget, window) {
      assert SpanAt(log, i, budget, window);
      if i + budget == |log| {
        assert i < |log| - |Recent(log, now, window)|;
      }
    }
  }

  // ----- what spacing means for a window -----

  /** Restarts in the window of the given length that starts at `lo`. */
  function CountIn(times: seq<int>, lo: int, window: int): nat {
    if times == [] then 0
    else (if lo <= times[0] < lo + window then 1 else 0) + CountIn(times[1..], lo, window)
  }

  lemma {:induction false} CountInSplit(times: seq<int>, k: nat, lo: int, window: int)
    requires k <= |times|
    ensures CountIn(times, lo, window) == CountIn(times[..k], lo, window) + CountIn(times[k..], lo, window)
  {
    if k == 0 {
      assert times[0..] == times;
    } else {
      CountInSplit(times[1..], k - 1, lo, window);
      assert times[1..][..k - 1] == times[..k][1..];
      assert times[1..][k - 1..] == times[k..];
    }
  }

  lemma {:induction false} CountInBounds(times: seq<int>, lo: int, window: int)
    ensures CountIn(times, lo, window) <= |times|
    ensures (forall i | 0 <= i < |times| :: !(lo <= times[i] < lo + window)) ==> CountIn(times, lo, window) == 0
  {
    if times != [] {
      CountInBounds(times[1..], lo, window);
    }
  }

  /** No window of the configured length, wherever it starts, holds more restarts than the budget. */
  lemma {:induction false} WindowHoldsBudget(times: seq<int>, budget: nat, window: int, lo: int)
    requires budget > 0 && Ascending(times) && Spaced(times, budget, window)
    ensures CountIn(times, lo, window) <= budget
    decreases |times|
  {
    var n := |times|;
    if n <= budget {
      CountInBounds(times, lo, window);
    } else if lo <= times[n - 1] < lo + window {
      var k := n - budget;
      forall i | 0 <= i < k ensures !(lo <= times[..k][i] < lo + window) {
        assert SpanAt(times, i, budget, window);
      }
      CountInSplit(times, k, lo, window);
      CountInBounds(times[..k], lo, window);
      CountInBounds(times[k..], lo, window);
    } else {
      var init := times[..n - 1];
      forall i: nat ensures SpanAt(init, i, budget, window) {
        assert SpanAt(times, i, budget, window);
      }
      WindowHoldsBudget(init, budget, window, lo);
      CountInSplit(times, n - 1, lo, window);
      CountInBounds(times[n - 1..], lo, window);
    }
  }

  lemma {:induction false} RecentCounts(log: seq<int>, now: int, window: int)
    requires NotAfter(log, now)
    ensures |Recent(log, now, window)| == CountIn(log, now - window + 1, window)
  {
    if log != [] {
      assert forall i | 0 <= i < |log[1..]| :: log[1..][i] == log[i + 1];
      RecentCounts(log[1..], now, window);
    }
  }

  /** A restart is allowed exactly if the window that ends now holds fewer restarts than the budget. */
  lemma AllowedMeansRoom(log: seq<int>, now: int, budget: int, window: int)
    requires NotAfter(log, now)
    ensures Allowed(log, now, budget, window) <==> CountIn(log, now - window + 1, window) < budget
  {
    RecentCounts(log, now, window);
  }

  // ----- one child's bookkeeping -----

  /** What the pruned history `kept` and the complete log of a child satisfy at time `now`. */
  ghost predicate Sound(kept: seq<int>, log: seq<int>, spec: Spec, now: int) {
    && Ascending(log) && NotAfter(log, now)
    && (if spec.budget > 0 then Spaced(log, spec.budget, spec.window) else log == [])
    && PrunedFrom(kept, log, now, spec.window)
  }

  lemma SoundLater(kept: seq<int>, log: seq<int>, spec: Spec, now: int, later: int)
    requires Sound(kept, log, spec, now) && now <= later
    ensures Sound(kept, log, spec, later)
  {
  }

  /** Pruning keeps the bookkeeping sound and answers as the complete log would. */
  lemma SoundPruned(kept: seq<int>, log: seq<int>, spec: Spec, now: int, later: int)
    requires Sound(kept, log, spec, now) && now <= later
    ensures Sound(Recent(kept, later, spec.window), log, spec, later)
    ensures Recent(kept, later, spec.window) == Recent(log, later, spec.window)
  {
    PrunedDecidesAlike(kept, log, now, later, spec.window);
    PruneAgain(kept, log, now, later, spec.window);
  }

  lemma SoundRecorded(kept: seq<int>, log: seq<int>, spec: Spec, now: int, at: int)
    requires Sound(kept, log, spec, now) && now <= at && Allowed(log, now, spec.budget, spec.window)
    ensures Sound(kept + [at], log + [at], spec, at)
  {
    AllowedKeepsSpaced(log, now, at, spec.budget, spec.window);
    assert (log + [at])[|log| - |kept|..] == log[|log| - |kept|..] + [at];
  }

  /** No window of the child's length, wherever it starts, holds more restarts than its budget. */
  ghost predicate BudgetKept(log: seq<int>, spec: Spec) {
    forall lo :: CountIn(log, lo, spec.window) <= spec.budget
  }

  lemma SoundKeepsBudget(kept: seq<int>, log: seq<int>, spec: Spec, now: int)
    requires Sound(kept, log, spec, now) && spec.budget > 0
    ensures BudgetKept(log, spec)
  {
    forall lo ensures CountIn(log, lo, spec.window) <= spec.budget {
      WindowHoldsBudget(log, spec.budget, spec.window, lo);
    }
  }

  // ----- the supervisor -----

  datatype Spec = Spec(name: string, budget: int, window: int)

  datatype Child = Child(spec: Spec, pid: int)

  datatype Exit = Running | Exited(status: int)

  datatype Signal = SigTerm | SigKill

  datatype Event =
    | Signalled(pid: int, signal: Signal, failed: bool)   // `failed`: an OSError other than "no such process"
    | Probed(pid: int, dead: bool, raised: bool)
    | Polled(pid: int, raised: bool)
    | Waited(pid: int, reaped: bool)
    | Closed(log: string, failed: bool)
    | ClockRead(at: int)

  /** Events that `stop_all` must not report as a clean shutdown. */
  predicate Faulty(e: Event) {
    match e
    case Signalled(_, _, failed) => failed
    case Probed(_, _, raised) => raised
    case Polled(_, raised) => raised
    case Waited(_, reaped) => !reaped
    case Closed(_, failed) => failed
    case ClockRead(_) => false
  }

  /** The keys of the `errors` dictionary that `stop_all` collects. */
  datatype ErrorKey =
    | SignalError(pid: int, signal: Signal)
    | ProbeError(pid: int)
    | PollError(pid: int)
    | ReapError(pid: int)
    | LogCloseError(log: string)
    | Survivor(pid: int)

  /** Where an event is recorded if it is faulty. */
  function KeyOf(e: Event): ErrorKey
    requires !e.ClockRead?
  {
    match e
    case Signalled(pid, signal, _) => SignalError(pid, signal)
    case Probed(pid, _, _) => ProbeError(pid)
    case Polled(pid, _) => PollError(pid)
    case Waited(pid, _) => ReapError(pid)
    case Closed(log, _) => LogCloseError(log)
  }

  /** What these events leave in the `errors` dictionary. */
  function FaultKeys(events: seq<Event>): set<ErrorKey> {
    if events == [] then {}
    else
      var last := events[|events| - 1];
      FaultKeys(events[..|events| - 1]) + if Faulty(last) then {KeyOf(last)} else {}
  }

  lemma FaultKeysPush(events: seq<Event>, e: Event)
    ensures FaultKeys(events + [e]) == FaultKeys(events) + if Faulty(e) then {KeyOf(e)} else {}
  {
    assert (events + [e])[..|events|] == events;
  }

  /** What `stop_all` records about the groups that are left. */
  function SurvivorKeys(children: seq<Child>): set<ErrorKey> {
    set c | c in children :: Survivor(c.pid)
  }

  lemma NoSurvivorKeys(children: seq<Child>)
    ensures SurvivorKeys(children) == {} <==> children == []
  {
    if children != [] {
      assert Survivor(children[0].pid) in SurvivorKeys(children);
    }
  }

  function Backwards(events: seq<Event>): seq<Event> {
    if events == [] then [] else Backwards(events[1..]) + [events[0]]
  }

  /** What an event can show. A probe that raises shows nothing: unknown is not dead. */
  datatype Fact =
    | Sent(pid: int, signal: Signal)
    | Dead(pid: int)
    | NotDead(pid: int)
    | LeaderPolled(pid: int)
    | WaitedFor(pid: int)
    | LogClosed(log: string)

  predicate Shows(e: Event, fact: Fact) {
    match fact
    case Sent(pid, signal) => e.Signalled? && e.pid == pid && e.signal == signal
    case Dead(pid) => e.Probed? && e.pid == pid && e.dead && !e.raised
    case NotDead(pid) => e.Probed? && e.pid == pid && !(e.dead && !e.raised)
    case LeaderPolled(pid) => e.Polled? && e.pid == pid
    case WaitedFor(pid) => e.Waited? && e.pid == pid
    case LogClosed(log) => e.Closed? && e.log == log
  }

  predicate ProbeOf(e: Event, pid: int) {
    e.Probed? && e.pid == pid
  }

  /** The children whose probe, listed at the same index, did not show them dead. */
  function NotShownDead(children: seq<Child>, probes: seq<Event>): seq<Child>
    requires |probes| == |children|
  {
    if children == [] then []
    else
      var n := |children| - 1;
      NotShownDead(children[..n], probes[..n]) + (if Shows(probes[n], Dead(children[n].pid)) then [] else [children[n]])
  }

  lemma NotShownDeadPush(children: seq<Child>, probes: seq<Event>, c: Child, e: Event)
    requires |probes| == |children|
    ensures NotShownDead(children + [c], probes + [e]) ==
            NotShownDead(children, probes) + if Shows(e, Dead(c.pid)) then [] else [c]
  {
    assert (children + [c])[..|children|] == children && (probes + [e])[..|probes|] == probes;
  }

  lemma {:induction false} SurvivorListed(children: seq<Child>, probes: seq<Event>, i: nat)
    requires |probes| == |children| && i < |children| && !Shows(probes[i], Dead(children[i].pid))
    ensures children[i] in NotShownDead(children, probes)
  {
    var n := |children| - 1;
    if i < n {
      SurvivorListed(children[..n], probes[..n], i);
    }
  }

  lemma {:induction false} SurvivorIndex(children: seq<Child>, probes: seq<Event>, c: Child) returns (i: nat)
    requires |probes| == |children| && c in NotShownDead(children, probes)
    ensures i < |children| && children[i] == c && !Shows(probes[i], Dead(c.pid))
  {
    var n := |children| - 1;
    if c in NotShownDead(children[..n], probes[..n]) {
      i := SurvivorIndex(children[..n], probes[..n], c);
    } else {
      i := n;
    }
  }

  /** Whoever is dropped by a round of probes was shown dead in it. */
  lemma ProbesShow(before: seq<Event>, probes: seq<Event>, trace: seq<Event>, children: seq<Child>)
    requires |probes| == |children| && before + probes <= trace
    ensures forall c | c in children :: c in NotShownDead(children, probes) || Since(trace, |before|, Dead(c.pid))
    ensures forall c | c in NotShownDead(children, probes) :: c in children
  {
    forall c | c in children ensures c in NotShownDead(children, probes) || Since(trace, |before|, Dead(c.pid)) {
      var i :| 0 <= i < |children| && children[i] == c;
      assert trace[|before| + i] == (before + probes)[|before| + i] == probes[i];
      if !Shows(probes[i], Dead(c.pid)) {
        SurvivorListed(children, probes, i);
      }
    }
    forall c | c in NotShownDead(children, probes) ensures c in children {
      var i := SurvivorIndex(children, probes, c);
    }
  }

  lemma SurvivorsNotDead(before: seq<Event>, probes: seq<Event>, trace: seq<Event>, children: seq<Child>)
    requires |probes| == |children| && before + probes <= trace
    requires forall i | 0 <= i < |children| :: ProbeOf(probes[i], children[i].pid)
    ensures forall c | c in NotShownDead(children, probes) :: Since(trace, |before|, NotDead(c.pid))
  {
    forall c | c in NotShownDead(children, probes) ensures Since(trace, |before|, NotDead(c.pid)) {
      var i := SurvivorIndex(children, probes, c);
      assert trace[|before| + i] == (before + probes)[|before| + i] == probes[i];
      assert Shows(trace[|before| + i], NotDead(c.pid));
    }
  }

  /** The clock was read twice in this stretch of events, the timeout or more apart. */
  ghost predicate TimedOut(trace: seq<Event>, from: nat, to: nat, timeout: int) {
    exists i, j | from <= i < j < to <= |trace| ::
      trace[i].ClockRead? && trace[j].ClockRead? && trace[j].at - trace[i].at >= timeout
  }

  lemma PatientIfDead(trace: seq<Event>, from: nat, timeout: int, children: seq<Child>)
    requires TimedOut(trace, from, |trace|, timeout) || forall c | c in children :: Since(trace, from, Dead(c.pid))
    ensures Patient(trace, from, |trace|, timeout, children)
  {
    if !TimedOut(trace, from, |trace|, timeout) {
      forall c | c in children ensures ShownDeadBetween(trace, from, |trace|, c.pid) {
        var k :| from <= k < |trace| && Shows(trace[k], Dead(c.pid));
      }
    }
  }

  ghost predicate ShownDeadBetween(trace: seq<Event>, from: nat, to: nat, pid: int) {
    exists k | from <= k < to <= |trace| :: Shows(trace[k], Dead(pid))
  }

  /** In this stretch of events the timeout passed, or every group was shown dead. */
  ghost predicate Patient(trace: seq<Event>, from: nat, to: nat, timeout: int, children: seq<Child>) {
    TimedOut(trace, from, to, timeout) || forall c | c in children :: ShownDeadBetween(trace, from, to, c.pid)
  }

  ghost predicate SignalsOnly(trace: seq<Event>, from: nat, lo: nat, hi: nat) {
    forall k | from <= k < |trace| && trace[k].Signalled? :: lo <= k < hi
  }

  /** The clock is not read after the first `from` events. */
  ghost predicate NoReads(trace: seq<Event>, from: nat) {
    forall k | from <= k < |trace| :: !trace[k].ClockRead?
  }

  ghost predicate ShownIn(trace: seq<Event>, lo: nat, hi: nat, fact: Fact) {
    exists k | lo <= k < hi <= |trace| :: Shows(trace[k], fact)
  }

  lemma ShownInWider(trace: seq<Event>, longer: seq<Event>, lo: nat, hi: nat, lo': nat, hi': nat, fact: Fact)
    requires ShownIn(trace, lo, hi, fact) && trace <= longer && lo' <= lo && hi <= hi' <= |longer|
    ensures ShownIn(longer, lo', hi', fact)
  {
    var k :| lo <= k < hi && Shows(trace[k], fact);
    assert Shows(longer[k], fact);
  }

  /**
   A turn of a wait: in this stretch every leader was polled, and each of the watched
   groups was found not dead, or some group of the roster if none is singled out.
   */
  ghost predicate Turn(trace: seq<Event>, lo: nat, hi: nat, watched: seq<Child>, roster: seq<Child>) {
    && (forall c | c in roster :: ShownIn(trace, lo, hi, LeaderPolled(c.pid)))
    && (if watched == [] then exists c | c in roster :: ShownIn(trace, lo, hi, NotDead(c.pid))
        else forall c | c in watched :: ShownIn(trace, lo, hi, NotDead(c.pid)))
  }

  lemma TurnWider(trace: seq<Event>, longer: seq<Event>, lo: nat, hi: nat, lo': nat, hi': nat, watched: seq<Child>,
                  fewer: seq<Child>, roster: seq<Child>)
    requires Turn(trace, lo, hi, watched, roster) && trace <= longer && lo' <= lo && hi <= hi' <= |longer|
    requires (fewer == [] <==> watched == []) && forall c | c in fewer :: c in watched
    ensures Turn(longer, lo', hi', fewer, roster)
  {
    forall c | c in roster ensures ShownIn(longer, lo', hi', LeaderPolled(c.pid)) {
      ShownInWider(trace, longer, lo, hi, lo', hi', LeaderPolled(c.pid));
    }
    if watched == [] {
      var c :| c in roster && ShownIn(trace, lo, hi, NotDead(c.pid));
      ShownInWider(trace, longer, lo, hi, lo', hi', NotDead(c.pid));
    } else {
      forall c | c in fewer ensures ShownIn(longer, lo', hi', NotDead(c.pid)) {
        ShownInWider(trace, longer, lo, hi, lo', hi', NotDead(c.pid));
      }
    }
  }

  /** Between any two readings of the clock after event `from` there was a turn. */
  ghost predicate Turns(trace: seq<Event>, from: nat, to: nat, watched: seq<Child>, roster: seq<Child>) {
    forall i, j | from < i < j < to && j < |trace| && trace[i].ClockRead? && trace[j].ClockRead? ::
      Turn(trace, i, j, watched, roster)
  }

  lemma TurnsLater(trace: seq<Event>, longer: seq<Event>, from: nat, to: nat, watched: seq<Child>, fewer: seq<Child>,
                   roster: seq<Child>)
    requires Turns(trace, from, to, watched, roster) && trace <= longer && to <= |trace|
    requires (fewer == [] <==> watched == []) && forall c | c in fewer :: c in watched
    ensures Turns(longer, from, to, fewer, roster)
  {
    forall i, j | from < i < j < to && longer[i].ClockRead? && longer[j].ClockRead?
      ensures Turn(longer, i, j, fewer, roster)
    {
      assert trace[i] == longer[i] && trace[j] == longer[j];
      TurnWider(trace, longer, i, j, i, j, watched, fewer, roster);
    }
  }

  lemma TermTurn(read: seq<Event>, reaped: seq<Event>, turned: seq<Event>, roster: seq<Child>)
    requires read <= reaped <= turned && forall c | c in roster :: Since(reaped, |read|, LeaderPolled(c.pid))
    requires exists c | c in roster :: Since(turned, |reaped|, NotDead(c.pid))
    ensures Turn(turned, |read|, |turned|, [], roster)
  {
    forall c | c in roster ensures ShownIn(turned, |read|, |turned|, LeaderPolled(c.pid)) {
      SinceKept(reaped, turned, |read|, |read|, LeaderPolled(c.pid));
    }
    var c :| c in roster && Since(turned, |reaped|, NotDead(c.pid));
    SinceKept(turned, turned, |reaped|, |read|, NotDead(c.pid));
  }

  lemma KillTurn(read: seq<Event>, reaped: seq<Event>, turned: seq<Event>, left: seq<Child>, roster: seq<Child>)
    requires read <= reaped <= turned && forall c | c in roster :: Since(reaped, |read|, LeaderPolled(c.pid))
    requires left != [] && forall c | c in left :: Since(turned, |reaped|, NotDead(c.pid))
    ensures Turn(turned, |read|, |turned|, left, roster)
  {
    forall c | c in roster ensures ShownIn(turned, |read|, |turned|, LeaderPolled(c.pid)) {
      SinceKept(reaped, turned, |read|, |read|, LeaderPolled(c.pid));
    }
    forall c | c in left ensures ShownIn(turned, |read|, |turned|, NotDead(c.pid)) {
      SinceKept(turned, turned, |reaped|, |read|, NotDead(c.pid));
    }
  }

  /** The last reading in `read`, the turn up to `turned`, and one more reading. */
  lemma TurnsPush(read: seq<Event>, turned: seq<Event>, t: int, from: nat, watched: seq<Child>, fewer: seq<Child>,
                  roster: seq<Child>)
    requires Turns(read, from, |read|, watched, roster) && read <= turned && NoReads(turned, |read|)
    requires Turn(turned, |read|, |turned|, fewer, roster)
    requires (fewer == [] <==> watched == []) && forall c | c in fewer :: c in watched
    ensures Turns(turned + [ClockRead(t)], from, |turned| + 1, fewer, roster)
  {
    var trace := turned + [ClockRead(t)];
    TurnsLater(read, trace, from, |read|, watched, fewer, roster);
    forall i, j | from < i < j < |trace| && trace[i].ClockRead? && trace[j].ClockRead?
      ensures Turn(trace, i, j, fewer, roster)
    {
      if j == |turned| {
        assert trace[i] == turned[i];
        TurnWider(turned, trace, |read|, |turned|, i, j, fewer, fewer, roster);
      } else {
        assert trace[j] == turned[j];
      }
    }
  }

  /** Nobody is signalled after the first `from` events. */
  ghost predicate Quiet(trace: seq<Event>, from: nat) {
    forall k | from <= k < |trace| :: !trace[k].Signalled?
  }

  lemma TimedOutLater(trace: seq<Event>, longer: seq<Event>, from: nat, to: nat, timeout: int)
    requires TimedOut(trace, from, to, timeout) && trace <= longer
    ensures TimedOut(longer, from, to, timeout)
  {
    var i, j :| from <= i < j < to && trace[i].ClockRead? && trace[j].ClockRead?
        && trace[j].at - trace[i].at >= timeout;
    assert longer[i] == trace[i] && longer[j] == trace[j];
  }

  lemma ShownDeadLater(trace: seq<Event>, longer: seq<Event>, from: nat)
    requires trace <= longer && from <= |trace|
    ensures forall pid :: Since(trace, from, Dead(pid)) ==> ShownDeadBetween(longer, from, |trace|, pid)
  {
    forall pid | Since(trace, from, Dead(pid)) ensures ShownDeadBetween(longer, from, |trace|, pid) {
      var k :| from <= k < |trace| && Shows(trace[k], Dead(pid));
      assert Shows(longer[k], Dead(pid));
    }
  }

  // ----- the wait after SIGKILL -----

  /** Who was still waited for when the second wait ended, and the last probe of each, starting at event `at`. */
  datatype Wait = Wait(waiting: seq<Child>, at: nat, finals: seq<Event>)

  /** The SIGTERM attempts, the survivor probes starting at event `at`, the SIGKILL attempts and the wait after them. */
  datatype Shutdown = Shutdown(terms: seq<Event>, at: nat, probes: seq<Event>, kills: seq<Event>, last: Wait)

  ghost predicate KillsAre(kills: seq<Event>, survivors: seq<Child>) {
    |kills| == |survivors| && forall i | 0 <= i < |kills| :: Shows(kills[i], Sent(survivors[i].pid, SigKill))
  }

  /** Those whose last probe did not show them dead. */
  function LeftOver(last: Wait): seq<Child> {
    if |last.finals| == |last.waiting| then NotShownDead(last.waiting, last.finals) else last.waiting
  }

  /**
   From event `from` on, every survivor was shown dead or waited for, turn by turn, until
   the timeout had passed, and after that probed once more.
   */
  ghost predicate WaitedOut(last: Wait, survivors: seq<Child>, trace: seq<Event>, from: nat, timeout: int,
                            roster: seq<Child>)
  {
    && from <= last.at <= |trace|
    && (last.waiting == []
        || (TimedOut(trace, from, last.at, timeout) && Turns(trace, from, last.at, last.waiting, roster)))
    && (forall c | c in survivors :: c in last.waiting || ShownDeadBetween(trace, from, last.at, c.pid))
    && (forall c | c in last.waiting :: c in survivors)
    && |last.finals| == |last.waiting| && trace[..last.at] + last.finals <= trace
    && (forall i | 0 <= i < |last.finals| :: ProbeOf(last.finals[i], last.waiting[i].pid))
  }

  /**
   SIGTERM: one attempt per child in reverse order, right after the events `before`,
   whatever failed; then no signal but, turn by turn, polls and probes, until the timeout
   has passed or every group was shown dead.
   */
  ghost predicate Grace(before: seq<Event>, trace: seq<Event>, terms: seq<Event>, children: seq<Child>, timeout: int) {
    && |terms| == |children| == |Backwards(terms)| && before + Backwards(terms) <= trace
    && (forall i | 0 <= i < |children| :: Shows(terms[i], Sent(children[i].pid, SigTerm)))
    && Quiet(trace, |before| + |terms|)
    && Patient(trace, |before| + |terms|, |trace|, timeout, children)
    && Turns(trace, |before| + |terms|, |trace|, [], children)
  }

  /**
   After the events `before`: one survivor probe per child; SIGKILL, in reverse order, to
   exactly those the probes did not show dead; then the second wait, and no other signal.
   */
  ghost predicate Escalated(before: seq<Event>, trace: seq<Event>, run: Shutdown, children: seq<Child>, timeout: int) {
    var waits := |before| + |run.probes| + |run.kills|;
    && |run.probes| == |children| && (forall i | 0 <= i < |children| :: ProbeOf(run.probes[i], children[i].pid))
    && |run.kills| == |Backwards(run.kills)| && KillsAre(run.kills, NotShownDead(children, run.probes))
    && before + run.probes <= trace && (before + run.probes) + Backwards(run.kills) <= trace
    && Quiet(trace, waits)
    && WaitedOut(run.last, NotShownDead(children, run.probes), trace, waits, timeout, children)
  }

  lemma EscalatedBy(before: seq<Event>, killed: seq<Event>, trace: seq<Event>, run: Shutdown, children: seq<Child>,
                    timeout: int)
    requires |run.probes| == |children| && forall i | 0 <= i < |children| :: ProbeOf(run.probes[i], children[i].pid)
    requires KillsAre(run.kills, NotShownDead(children, run.probes))
    requires killed == (before + run.probes) + Backwards(run.kills) && killed <= trace && Quiet(trace, |killed|)
    requires WaitedOut(run.last, NotShownDead(children, run.probes), trace, |killed|, timeout, children)
    ensures Escalated(before, trace, run, children, timeout)
  {
    BackwardsLength(run.kills);
    assert before + run.probes <= killed;
  }

  /** Between the SIGTERMs and the SIGKILLs, and after those, nobody is signalled. */
  lemma SignalsInOrder(before: seq<Event>, awaited: seq<Event>, trace: seq<Event>, run: Shutdown, children: seq<Child>,
                       timeout: int)
    requires Grace(before, awaited, run.terms, children, timeout) && Escalated(awaited, trace, run, children, timeout)
    ensures SignalsOnly(trace, |before| + |run.terms|, |awaited| + |run.probes|, |awaited| + |run.probes| + |run.kills|)
  {
    forall k | |before| + |run.terms| <= k < |awaited| + |run.probes| ensures !trace[k].Signalled? {
      assert trace[k] == (awaited + run.probes)[k];
    }
  }

  lemma TurnsAfterwards(waited: seq<Event>, reaped: seq<Event>, trace: seq<Event>, from: nat, watched: seq<Child>,
                        roster: seq<Child>)
    requires Turns(waited, from, |waited|, watched, roster) && waited <= reaped <= trace && NoReads(reaped, |waited|)
    ensures Turns(trace, from, |reaped|, watched, roster)
  {
    TurnsLater(waited, trace, from, |waited|, watched, watched, roster);
    forall i, j | from < i < j < |reaped| && trace[i].ClockRead? && trace[j].ClockRead?
      ensures Turn(trace, i, j, watched, roster)
    {
      assert trace[j] == reaped[j];
    }
  }

  lemma WaitedLater(last: Wait, survivors: seq<Child>, waited: seq<Event>, reaped: seq<Event>, trace: seq<Event>,
                    from: nat, timeout: int, roster: seq<Child>)
    requires from <= |waited| && waited <= reaped && last.at == |reaped| && reaped + last.finals <= trace
    requires last.waiting == [] || TimedOut(waited, from, |waited|, timeout)
    requires last.waiting == [] || Turns(waited, from, |waited|, last.waiting, roster)
    requires NoReads(reaped, |waited|)
    requires forall c | c in survivors :: c in last.waiting || Since(waited, from, Dead(c.pid))
    requires forall c | c in last.waiting :: c in survivors
    requires |last.finals| == |last.waiting|
    requires forall i | 0 <= i < |last.finals| :: ProbeOf(last.finals[i], last.waiting[i].pid)
    ensures WaitedOut(last, survivors, trace, from, timeout, roster)
  {
    assert trace[..last.at] == reaped;
    if last.waiting != [] {
      TimedOutLater(waited, reaped, from, |waited|, timeout);
      var i, j :| from <= i < j < |waited| && reaped[i].ClockRead? && reaped[j].ClockRead?
               && reaped[j].at - reaped[i].at >= timeout;
      assert trace[i] == reaped[i] && trace[j] == reaped[j];
      TurnsAfterwards(waited, reaped, trace, from, last.waiting, roster);
    }
    forall c | c in survivors && c !in last.waiting ensures ShownDeadBetween(trace, from, last.at, c.pid) {
      SinceKept(waited, reaped, from, from, Dead(c.pid));
      ShownDeadLater(reaped, trace, from);
    }
  }

  lemma NobodyLeft(last: Wait, survivors: seq<Child>, trace: seq<Event>, from: nat, timeout: int, roster: seq<Child>)
    requires WaitedOut(last, survivors, trace, from, timeout, roster)
    ensures LeftOver(last) == [] ==> forall c | c in survivors :: Since(trace, from, Dead(c.pid))
  {
    ProbesShow(trace[..last.at], last.finals, trace, last.waiting);
    forall c | c in survivors && LeftOver(last) == [] ensures Since(trace, from, Dead(c.pid)) {
      if c in last.waiting {
        SinceKept(trace, trace, last.at, from, Dead(c.pid));
      } else {
        var k :| from <= k < last.at && Shows(trace[k], Dead(c.pid));
      }
    }
  }

  /** Nobody left over: each child was shown dead by the survivor probes or in the wait after SIGKILL. */
  lemma EveryoneShown(before: seq<Event>, trace: seq<Event>, run: Shutdown, children: seq<Child>, timeout: int)
    requires Escalated(before, trace, run, children, timeout)
    ensures LeftOver(run.last) == [] ==> forall c | c in children :: Since(trace, |before|, Dead(c.pid))
  {
    var killed := |before| + |run.probes| + |run.kills|;
    ProbesShow(before, run.probes, trace, children);
    NobodyLeft(run.last, NotShownDead(children, run.probes), trace, killed, timeout, children);
    SinceEarlier(trace, killed, |before|);
  }

  /** Every signal was delivered, every probe and poll answered, every leader reaped, every log closed. */
  ghost predicate AllWell(events: seq<Event>) {
    && (forall pid, signal, failed | Signalled(pid, signal, failed) in events :: !failed)
    && (forall pid, dead, raised | Probed(pid, dead, raised) in events :: !raised)
    && (forall pid, raised | Polled(pid, raised) in events :: !raised)
    && (forall pid, reaped | Waited(pid, reaped) in events :: reaped)
    && (forall log, failed | Closed(log, failed) in events :: !failed)
  }

  /** Which errors are reported: one for each kind of trouble that occurred, under the name of whom it concerns. */
  ghost predicate Reported(errors: set<ErrorKey>, events: seq<Event>, left: seq<Child>) {
    && (forall pid, signal :: SignalError(pid, signal) in errors <==> Signalled(pid, signal, true) in events)
    && (forall pid :: ProbeError(pid) in errors <==> exists dead :: Probed(pid, dead, true) in events)
    && (forall pid :: PollError(pid) in errors <==> Polled(pid, true) in events)
    && (forall pid :: ReapError(pid) in errors <==> Waited(pid, false) in events)
    && (forall log :: LogCloseError(log) in errors <==> Closed(log, true) in events)
    && (forall pid :: Survivor(pid) in errors <==> exists c | c in left :: c.pid == pid)
  }

  lemma {:induction false} FaultKeysReport(events: seq<Event>)
    ensures Reported(FaultKeys(events), events, [])
    ensures FaultKeys(events) == {} <==> AllWell(events)
  {
    if events != [] {
      var init, last := events[..|events| - 1], events[|events| - 1];
      FaultKeysReport(init);
      assert events == init + [last];
      assert forall e :: e in events <==> e in init || e == last;
      ReportPush(init, last);
    }
  }

  lemma ReportPush(events: seq<Event>, e: Event)
    requires Reported(FaultKeys(events), events, []) && (FaultKeys(events) == {} <==> AllWell(events))
    ensures Reported(FaultKeys(events + [e]), events + [e], [])
    ensures FaultKeys(events + [e]) == {} <==> AllWell(events + [e])
  {
    FaultKeysPush(events, e);
    assert forall x :: x in events + [e] <==> x in events || x == e;
    assert Faulty(e) ==> KeyOf(e) in FaultKeys(events + [e]);
  }

  /**
   A whole shutdown: SIGTERM to every group and the grace period; SIGKILL to exactly the
   survivors, the second wait and one more probe of whoever is left; no other signal; and
   if nobody is left over, every group was shown dead.
   */
  ghost predicate Stopped(before: seq<Event>, trace: seq<Event>, run: Shutdown, children: seq<Child>, timeout: int)
    requires run.at <= |trace|
  {
    && Grace(before, trace[..run.at], run.terms, children, timeout)
    && Escalated(trace[..run.at], trace, run, children, timeout)
    && SignalsOnly(trace, |before| + |run.terms|, run.at + |run.probes|, run.at + |run.probes| + |run.kills|)
    && (LeftOver(run.last) == [] ==> forall c | c in children :: Since(trace, run.at, Dead(c.pid)))
  }

  lemma StopIs(before: seq<Event>, awaited: seq<Event>, trace: seq<Event>, run: Shutdown, children: seq<Child>,
               timeout: int)
    requires Grace(before, awaited, run.terms, children, timeout) && Escalated(awaited, trace, run, children, timeout)
    requires run.at == |awaited| && awaited <= trace
    ensures |before| <= run.at && Stopped(before, trace, run, children, timeout)
  {
    assert trace[..run.at] == awaited;
    SignalsInOrder(before, awaited, trace, run, children, timeout);
    EveryoneShown(awaited, trace, run, children, timeout);
  }

  /** When all is well, whoever was waited for was reaped and whatever log was closed is closed. */
  lemma WellDone(trace: seq<Event>, from: nat, at: nat)
    requires from <= at <= |trace| && AllWell(trace[from..])
    ensures forall pid :: Since(trace, at, WaitedFor(pid)) ==> Waited(pid, true) in trace
    ensures forall log :: Since(trace, at, LogClosed(log)) ==> Closed(log, false) in trace
  {
    forall pid | Since(trace, at, WaitedFor(pid)) ensures Waited(pid, true) in trace {
      var k :| at <= k < |trace| && Shows(trace[k], WaitedFor(pid));
      assert trace[from..][k - from] == trace[k];
      assert Waited(pid, trace[k].reaped) in trace[from..];
    }
    forall log | Since(trace, at, LogClosed(log)) ensures Closed(log, false) in trace {
      var k :| at <= k < |trace| && Shows(trace[k], LogClosed(log));
      assert trace[from..][k - from] == trace[k];
      assert Closed(log, trace[k].failed) in trace[from..];
    }
  }

  lemma StopReports(events: seq<Event>, left: seq<Child>)
    ensures var errors := FaultKeys(events) + SurvivorKeys(left);
            Reported(errors, events, left) && (errors == {} <==> AllWell(events) && left == [])
  {
    FaultKeysReport(events);
    NoSurvivorKeys(left);
  }

  /** Who was dropped as dead stays shown dead. */
  lemma DroppedStay(survivors: seq<Child>, left: seq<Child>, trace: seq<Event>, longer: seq<Event>, from: nat)
    requires trace <= longer && forall c | c in survivors :: c in left || Since(trace, from, Dead(c.pid))
    ensures forall c | c in survivors :: c in left || Since(longer, from, Dead(c.pid))
  {
    forall c | c in survivors && c !in left ensures Since(longer, from, Dead(c.pid)) {
      SinceKept(trace, longer, from, from, Dead(c.pid));
    }
  }

  // ----- the restart log -----

  function RestartsOf(log: seq<(string, int)>, name: string): nat {
    if log == [] then 0
    else RestartsOf(log[..|log| - 1], name) + if log[|log| - 1].0 == name then 1 else 0
  }

  lemma RestartsOfPush(log: seq<(string, int)>, x: (string, int), name: string)
    ensures RestartsOf(log + [x], name) == RestartsOf(log, name) + if x.0 == name then 1 else 0
  {
    assert (log + [x])[..|log|] == log;
  }

  /** The exits one pass sees among the first `n` children, in roster order. */
  function ExitLog(specs: seq<Spec>, exits: seq<Exit>, n: nat): seq<(string, int)>
    requires n <= |specs| && n <= |exits|
  {
    if n == 0 then []
    else ExitLog(specs, exits, n - 1) + if exits[n - 1].Exited? then [(specs[n - 1].name, exits[n - 1].status)] else []
  }

  /** The exits that the first `n` passes see. */
  function RunLog(specs: seq<Spec>, rounds: seq<seq<Exit>>, n: nat): seq<(string, int)>
    requires n <= |rounds| && forall r | r in rounds :: |r| == |specs|
  {
    if n == 0 then [] else RunLog(specs, rounds, n - 1) + ExitLog(specs, rounds[n - 1], |specs|)
  }

  /** Some event after the first `from` shows it. */
  ghost predicate Since(trace: seq<Event>, from: nat, fact: Fact) {
    exists k | from <= k < |trace| :: Shows(trace[k], fact)
  }

  lemma SinceKept(trace: seq<Event>, longer: seq<Event>, from: nat, earlier: nat, fact: Fact)
    requires Since(trace, from, fact) && trace <= longer && earlier <= from
    ensures Since(longer, earlier, fact)
  {
    var k :| from <= k < |trace| && Shows(trace[k], fact);
    assert Shows(longer[k], fact);
  }

  lemma SinceEarlier(trace: seq<Event>, from: nat, earlier: nat)
    requires earlier <= from
    ensures forall fact :: Since(trace, from, fact) ==> Since(trace, earlier, fact)
  {
  }

  predicate SameLimits(specs: seq<Spec>) {
    forall a, b | a in specs && b in specs && a.name == b.name :: a == b
  }

  lemma DistinctNames(specs: seq<Spec>)
    requires forall i, j | 0 <= i < j < |specs| :: specs[i].name != specs[j].name
    ensures SameLimits(specs)
  {
  }

  /** The roster lists the specified children in order. */
  predicate Rostered(children: seq<Child>, specs: seq<Spec>) {
    |children| == |specs| && forall i | 0 <= i < |specs| :: children[i].spec == specs[i]
  }

  function Get(m: Times, name: string): seq<int> {
    if name in m then m[name] else []
  }

  lemma Regroup(a: seq<(string, int)>, b: seq<(string, int)>, c: seq<(string, int)>)
    ensures a + b + c == a + (b + c)
  {
  }

  // ----- the bookkeeping of all children -----

  type Times = map<string, seq<int>>

  /** Every child's bookkeeping is sound, and the full log has one entry per restart made and no other. */
  ghost predicate Books(specs: seq<Spec>, restarts: Times, full: Times, log: seq<(string, int)>, now: int) {
    && (forall spec {:trigger SoundFor(restarts, full, spec, now)} | spec in specs ::
        SoundFor(restarts, full, spec, now))
    && (forall name :: Counted(full, log, name))
  }

  ghost predicate SoundFor(restarts: Times, full: Times, spec: Spec, now: int) {
    Sound(Get(restarts, spec.name), Get(full, spec.name), spec, now)
  }

  predicate Counted(full: Times, log: seq<(string, int)>, name: string) {
    |Get(full, name)| == RestartsOf(log, name)
  }

  lemma BooksLater(specs: seq<Spec>, restarts: Times, full: Times, log: seq<(string, int)>, now: int, later: int)
    requires Books(specs, restarts, full, log, now) && now <= later
    ensures Books(specs, restarts, full, log, later)
  {
    forall spec | spec in specs ensures SoundFor(restarts, full, spec, later) {
      assert SoundFor(restarts, full, spec, now);
      SoundLater(Get(restarts, spec.name), Get(full, spec.name), spec, now, later);
    }
  }

  lemma BooksPruned(specs: seq<Spec>, restarts: Times, full: Times, log: seq<(string, int)>, now: int, spec: Spec)
    requires Books(specs, restarts, full, log, now) && spec in specs && SameLimits(specs)
    ensures Books(specs, restarts[spec.name := Recent(Get(restarts, spec.name), now, spec.window)], full, log, now)
    ensures Recent(Get(restarts, spec.name), now, spec.window) == Recent(Get(full, spec.name), now, spec.window)
  {
    assert SoundFor(restarts, full, spec, now);
    SoundPruned(Get(restarts, spec.name), Get(full, spec.name), spec, now, now);
    var pruned := restarts[spec.name := Recent(Get(restarts, spec.name), now, spec.window)];
    forall other | other in specs ensures SoundFor(pruned, full, other, now) {
      if other.name == spec.name {
        assert other == spec;
      } else {
        assert SoundFor(restarts, full, other, now) && Get(pruned, other.name) == Get(restarts, other.name);
      }
    }
  }

  lemma BooksRecorded(specs: seq<Spec>, restarts: Times, full: Times, log: seq<(string, int)>, now: int,
                      spec: Spec, status: int, at: int)
    requires Books(specs, restarts, full, log, now) && spec in specs && SameLimits(specs) && now <= at
    requires Allowed(Get(full, spec.name), now, spec.budget, spec.window)
    ensures Books(specs, restarts[spec.name := Get(restarts, spec.name) + [at]],
                  full[spec.name := Get(full, spec.name) + [at]],
                  log + [(spec.name, status)], at)
  {
    var restarts' := restarts[spec.name := Get(restarts, spec.name) + [at]];
    var full' := full[spec.name := Get(full, spec.name) + [at]];
    forall other | other in specs ensures SoundFor(restarts', full', other, at) {
      assert SoundFor(restarts, full, other, now);
      if other.name == spec.name {
        assert other == spec;
        SoundRecorded(Get(restarts, spec.name), Get(full, spec.name), spec, now, at);
      } else {
        SoundLater(Get(restarts, other.name), Get(full, other.name), other, now, at);
      }
    }
    forall name ensures Counted(full', log + [(spec.name, status)], name) {
      CountedPush(full, log, name, spec.name, status, at);
    }
  }

  lemma CountedPush(full: Times, log: seq<(string, int)>, name: string, restarted: string, status: int, at: int)
    requires Counted(full, log, name)
    ensures Counted(full[restarted := Get(full, restarted) + [at]], log + [(restarted, status)], name)
  {
    RestartsOfPush(log, (restarted, status), name);
  }

  lemma BooksKeepBudget(specs: seq<Spec>, restarts: Times, full: Times, log: seq<(string, int)>, now: int)
    requires Books(specs, restarts, full, log, now)
    ensures forall spec | spec in specs :: |Get(full, spec.name)| == RestartsOf(log, spec.name)
    ensures forall spec | spec in specs && spec.budget > 0 :: BudgetKept(Get(full, spec.name), spec)
    ensures forall spec | spec in specs && spec.budget <= 0 :: RestartsOf(log, spec.name) == 0
  {
    forall spec | spec in specs ensures |Get(full, spec.name)| == RestartsOf(log, spec.name) {
      assert Counted(full, log, spec.name);
    }
    forall spec | spec in specs && spec.budget > 0 ensures BudgetKept(Get(full, spec.name), spec) {
      assert SoundFor(restarts, full, spec, now);
      SoundKeepsBudget(Get(restarts, spec.name), Get(full, spec.name), spec, now);
    }
    forall spec | spec in specs && spec.budget <= 0 ensures RestartsOf(log, spec.name) == 0 {
      assert SoundFor(restarts, full, spec, now) && Counted(full, log, spec.name);
    }
  }

  /** Since the earlier log, entries for this name were only added, at the end and stamped not before `from`. */
  ghost predicate StampedFor(earlier: Times, full: Times, from: int, name: string) {
    var was, log := Get(earlier, name), Get(full, name);
    was <= log && forall i | |was| <= i < |log| :: from <= log[i]
  }

  ghost predicate Stamped(earlier: Times, full: Times, from: int) {
    forall name :: StampedFor(earlier, full, from, name)
  }

  lemma StampedMore(earlier: Times, name: string, from: int, t: int)
    requires from <= t
    ensures Stamped(earlier, earlier[name := Get(earlier, name) + [t]], from)
  {
  }

  lemma StampedAlong(oldest: Times, earlier: Times, full: Times, from: int, began: int)
    requires Stamped(oldest, earlier, from) && Stamped(earlier, full, began) && from <= began
    ensures Stamped(oldest, full, from)
  {
    forall name ensures StampedFor(oldest, full, from, name) {
      assert StampedFor(oldest, earlier, from, name) && StampedFor(earlier, full, began, name);
    }
  }

  class ProcessSupervisor {
    const specs: seq<Spec>
    const stopTimeout: int
    const pollInterval: int
    var processes: seq<Child>
    var logHandles: seq<string>
    var restarts: Times
    var restartLog: seq<(string, int)>
    var now: int
    var trace: seq<Event>
    var errors: set<ErrorKey>
    ghost var recorded: set<ErrorKey>  // the survivors among the errors
    ghost var full: Times  // every restart time, never pruned

    constructor (specs: seq<Spec>, children: seq<Child>, logs: seq<string>, stopTimeout: int, pollInterval: int)
      requires stopTimeout > 0 && pollInterval > 0 && SameLimits(specs) && Rostered(children, specs)
      ensures Valid() && this.specs == specs && processes == children && logHandles == logs
      ensures this.stopTimeout == stopTimeout && this.pollInterval == pollInterval
      ensures full == map[] && trace == [] && restartLog == []
    {
      this.specs, this.stopTimeout, this.pollInterval := specs, stopTimeout, pollInterval;
      processes, logHandles := children, logs;
      restarts, restartLog, now, trace, errors, recorded, full := map[], [], 0, [], {}, {}, map[];
    }

    ghost predicate Valid()
      reads this
    {
      && pollInterval > 0 && stopTimeout > 0
      && SameLimits(specs) && Rostered(processes, specs)
      && Books(specs, restarts, full, restartLog, now)
    }

    /** The clock never goes back. */
    method Tick() returns (t: int)
      modifies this`now
      ensures t == now >= old(now)
    {
      var later: int := *;
      now := if later > now then later else now;
      t := now;
    }

    method Monotonic() returns (t: int)
      requires Valid()
      modifies this`now
      ensures Valid() && t == now >= old(now)
    {
      ghost var before := now;
      t := Tick();
      BooksLater(specs, restarts, full, restartLog, before, now);
    }

    /** Answers exactly as the complete restart log would; pruning changes no later answer. */
    method RestartAllowed(spec: Spec) returns (allowed: bool)
      requires Valid() && spec in specs
      modifies this`now, this`restarts
      ensures Valid() && now >= old(now)
      ensures allowed <==> Allowed(Get(full, spec.name), now, spec.budget, spec.window)
      // expired entries of this child are dropped, nobody else's
      ensures restarts == if spec.budget <= 0 then old(restarts)
                          else old(restarts)[spec.name := Recent(old(Get(restarts, spec.name)), now, spec.window)]
    {
      if spec.budget <= 0 {
        return false;
      }
      var t := Monotonic();
      BooksPruned(specs, restarts, full, restartLog, t, spec);
      var history := Recent(Get(restarts, spec.name), t, spec.window);
      restarts := restarts[spec.name := history];
      allowed := |history| < spec.budget;
    }

    /** Stamps one restart. The clock is read again, so the stamp may be later than the check. */
    method RecordRestart(spec: Spec, status: int)
      requires Valid() && spec in specs
      requires Allowed(Get(full, spec.name), now, spec.budget, spec.window)
      modifies this`now, this`restarts, this`full, this`restartLog
      ensures Valid() && now >= old(now)
      ensures full == old(full)[spec.name := old(Get(full, spec.name)) + [now]]
      ensures restartLog == old(restartLog) + [(spec.name, status)]
    {
      ghost var checked := now;
      var t := Tick();
      BooksRecorded(specs, restarts, full, restartLog, checked, spec, status, t);
      restarts := restarts[spec.name := Get(restarts, spec.name) + [t]];
      full := full[spec.name := Get(full, spec.name) + [t]];
      restartLog := restartLog + [(spec.name, status)];
    }

    /** One child that was seen to exit: restart it inside its budget, sweeping its old group, or refuse. */
    method ReplaceChild(index: nat, status: int, freshPid: int) returns (replaced: bool, ghost at: int)
      requires Valid() && index < |processes|
      modifies this`now, this`restarts, this`full, this`restartLog, this`processes, this`trace
      ensures Valid() && now >= old(now) && old(trace) <= trace
      ensures replaced ==>
                && processes == old(processes)[index := Child(old(processes)[index].spec, freshPid)]
                && Since(trace, old(|trace|), Sent(old(processes)[index].pid, SigTerm))
                && restartLog == old(restartLog) + [(old(processes)[index].spec.name, status)]
                && old(now) <= at <= now
                && full ==
                    old(full)[old(processes)[index].spec.name := old(Get(full, processes[index].spec.name)) + [at]]
      ensures !replaced ==>
                && processes == old(processes) && full == old(full) && restartLog == old(restartLog)
                && !Allowed(Get(full, processes[index].spec.name), now,
                            processes[index].spec.budget, processes[index].spec.window)
    {
      var child := processes[index];
      at := now;
      replaced := RestartAllowed(child.spec);
      if replaced {
        RecordRestart(child.spec, status);
        at := now;
        SweepGroup(child.pid);
        processes := processes[index := Child(child.spec, freshPid)];
      }
    }

    /**
     `_reconcile_children`: every child is polled; an exited one is restarted inside
     its budget, with its old group swept first, or ends the pass with an error.
     */
    method ReconcileChildren(exits: seq<Exit>, pids: seq<int>) returns (failedAt: int)
      requires Valid() && |exits| == |pids| == |processes|
      modifies this`now, this`restarts, this`full, this`restartLog, this`processes, this`trace
      ensures Valid() && now >= old(now) && old(trace) <= trace
      ensures -1 <= failedAt < |processes| == old(|processes|) == |specs|
      // exactly one restart per exit before the failure, stamped during this pass
      ensures restartLog == old(restartLog) + ExitLog(specs, exits, if failedAt < 0 then |specs| else failedAt)
      ensures Stamped(old(full), full, old(now))
      // every child before the failure, or every child, was dealt with
      ensures forall i | 0 <= i < |processes| ::
                processes[i] == if exits[i].Exited? && (failedAt < 0 || i < failedAt)
                                then Child(old(processes)[i].spec, pids[i]) else old(processes)[i]
      ensures forall i | 0 <= i < |processes| && exits[i].Exited? && (failedAt < 0 || i < failedAt) ::
                Since(trace, old(|trace|), Sent(old(processes)[i].pid, SigTerm))
      // the failure is an exit that the full restart log does not allow
      ensures failedAt >= 0 ==>
                && exits[failedAt].Exited?
                && !Allowed(Get(full, processes[failedAt].spec.name), now,
                            processes[failedAt].spec.budget, processes[failedAt].spec.window)
    {
      ghost var was, from := processes, |trace|;
      for index := 0 to |processes|
        invariant Valid() && now >= old(now) && |processes| == |was| == |specs| && old(trace) <= trace
        invariant restartLog == old(restartLog) + ExitLog(specs, exits, index) && Stamped(old(full), full, old(now))
        invariant forall i | 0 <= i < |was| ::
                    processes[i] == if i < index && exits[i].Exited? then Child(was[i].spec, pids[i]) else was[i]
        invariant forall i | 0 <= i < index && exits[i].Exited? :: Since(trace, from, Sent(was[i].pid, SigTerm))
      {
        ghost var earlier, began, seen := full, now, trace;
        var handled := ReconcileChild(index, exits[index], pids[index]);
        StampedAlong(old(full), earlier, full, old(now), began);
        if !handled {
          return index;
        }
        forall i | 0 <= i <= index && exits[i].Exited? ensures Since(trace, from, Sent(was[i].pid, SigTerm)) {
          SinceKept(if i < index then seen else trace, trace, if i < index then from else |seen|, from,
                    Sent(was[i].pid, SigTerm));
        }
      }
      return -1;
    }

    /** One child of the pass: nothing if it runs, a restart if it exited and may, otherwise false. */
    method ReconcileChild(index: nat, exit: Exit, freshPid: int) returns (handled: bool)
      requires Valid() && index < |processes|
      modifies this`now, this`restarts, this`full, this`restartLog, this`processes, this`trace
      ensures Valid() && now >= old(now) && old(trace) <= trace && Stamped(old(full), full, old(now))
      ensures handled && exit.Running? ==> processes == old(processes) && restartLog == old(restartLog)
      ensures handled && exit.Exited? ==>
                && processes == old(processes)[index := Child(old(processes)[index].spec, freshPid)]
                && restartLog == old(restartLog) + [(specs[index].name, exit.status)]
                && Since(trace, old(|trace|), Sent(old(processes)[index].pid, SigTerm))
      ensures !handled ==>
                && exit.Exited? && processes == old(processes) && restartLog == old(restartLog)
                && !Allowed(Get(full, processes[index].spec.name), now, processes[index].spec.budget,
                    processes[index].spec.window)
    {
      handled := true;
      if exit.Exited? {
        ghost var name := specs[index].name;
        var replaced, at := ReplaceChild(index, exit.status, freshPid);
        handled := replaced;
        StampedMore(old(full), name, old(now), if handled then at else old(now));
      }
    }

    /** The best-effort SIGTERM to the group being replaced; its errors are ignored. */
    method SweepGroup(pid: int)
      requires Valid()
      modifies this`trace
      ensures Valid()
      ensures old(trace) <= trace && Since(trace, old(|trace|), Sent(pid, SigTerm))
    {
      var failed: bool := *;
      trace := trace + [Signalled(pid, SigTerm, failed)];
      assert Shows(trace[|trace| - 1], Sent(pid, SigTerm));
    }

    /**
     The supervision loop, one element of `rounds` per poll until a signal arrives.
     `done` passes completed; the next one, if the loop failed, gave up on `failedAt`.
     */
    method Supervise(rounds: seq<seq<Exit>>, pids: seq<seq<int>>) returns (done: nat, failedAt: int)
      requires Valid() && (forall r | r in rounds :: |r| == |specs|)
      requires |pids| == |rounds| && forall r | r in pids :: |r| == |specs|
      modifies this`now, this`restarts, this`full, this`restartLog, this`processes, this`trace
      ensures Valid() && done <= |rounds| && (failedAt < 0 <==> done == |rounds|) && failedAt < |specs|
      // every exit seen before the end was answered by exactly one restart, in order
      ensures restartLog == old(restartLog) + RunLog(specs, rounds, done)
                            + if failedAt < 0 then [] else ExitLog(specs, rounds[done], failedAt)
      // each of them is in the full log, stamped during this run
      ensures Stamped(old(full), full, old(now))
      // it gives up only over an exited child whose full restart log does not allow another restart
      ensures failedAt >= 0 ==>
                && rounds[done][failedAt].Exited?
                && !Allowed(Get(full, specs[failedAt].name), now, specs[failedAt].budget, specs[failedAt].window)
      // over the whole run, no window of any child ever holds more restarts than its budget
      ensures forall spec | spec in specs :: |Get(full, spec.name)| == RestartsOf(restartLog, spec.name)
      ensures forall spec | spec in specs && spec.budget > 0 :: BudgetKept(Get(full, spec.name), spec)
      ensures forall spec | spec in specs && spec.budget <= 0 :: RestartsOf(restartLog, spec.name) == 0
    {
      done, failedAt := Polls(rounds, pids);
      BooksKeepBudget(specs, restarts, full, restartLog, now);
    }

    method Polls(rounds: seq<seq<Exit>>, pids: seq<seq<int>>) returns (done: nat, failedAt: int)
      requires Valid() && (forall r | r in rounds :: |r| == |specs|)
      requires |pids| == |rounds| && forall r | r in pids :: |r| == |specs|
      modifies this`now, this`restarts, this`full, this`restartLog, this`processes, this`trace
      ensures Valid() && done <= |rounds| && (failedAt < 0 <==> done == |rounds|) && failedAt < |specs|
      ensures restartLog == old(restartLog) + RunLog(specs, rounds, done)
                            + if failedAt < 0 then [] else ExitLog(specs, rounds[done], failedAt)
      ensures Stamped(old(full), full, old(now))
      ensures failedAt >= 0 ==>
                && rounds[done][failedAt].Exited?
                && !Allowed(Get(full, specs[failedAt].name), now, specs[failedAt].budget, specs[failedAt].window)
    {
      done, failedAt := 0, -1;
      while done < |rounds|
        invariant Valid() && done <= |rounds| && failedAt == -1 && now >= old(now)
        invariant restartLog == old(restartLog) + RunLog(specs, rounds, done)
        invariant Stamped(old(full), full, old(now))
      {
        ghost var earlier, began, logged := full, now, RunLog(specs, rounds, done);
        assert rounds[done] in rounds && pids[done] in pids;
        failedAt := ReconcileChildren(rounds[done], pids[done]);
        StampedAlong(old(full), earlier, full, old(now), began);
        if failedAt >= 0 {
          return;
        }
        Regroup(old(restartLog), logged, ExitLog(specs, rounds[done], |specs|));
        done := done + 1;
      }
    }

    // ----- shutdown -----

    /** The errors are exactly those of the events since `from`, and the recorded survivors. */
    ghost predicate Accounted(from: nat)
      reads this
    {
      from <= |trace| && errors == FaultKeys(trace[from..]) + recorded
    }

    /** Appends one event, recording its error if it has one. */
    method Observe(e: Event, ghost from: nat)
      requires Accounted(from)
      modifies this`trace, this`errors
      ensures trace == old(trace) + [e] && Accounted(from)
    {
      FaultKeysPush(trace[from..], e);
      trace := trace + [e];
      assert trace[from..] == old(trace)[from..] + [e];
      if Faulty(e) {
        errors := errors + {KeyOf(e)};
      }
    }

    method SignalGroup(pid: int, signal: Signal, ghost from: nat) returns (ghost e: Event)
      requires Accounted(from)
      modifies this`trace, this`errors
      ensures trace == old(trace) + [e] && Shows(e, Sent(pid, signal)) && Accounted(from)
    {
      var failed: bool := *;
      e := Signalled(pid, signal, failed);
      Observe(Signalled(pid, signal, failed), from);
    }

    /** A probe that raises reports the group alive. */
    method GroupIsAlive(pid: int, ghost from: nat) returns (alive: bool, ghost e: Event)
      requires Accounted(from)
      modifies this`trace, this`errors
      ensures trace == old(trace) + [e] && ProbeOf(e, pid) && Accounted(from)
      ensures alive <==> !Shows(e, Dead(pid))
    {
      var dead: bool, raised: bool := *, *;
      e := Probed(pid, dead, raised);
      Observe(Probed(pid, dead, raised), from);
      alive := raised || !dead;
    }

    method ReapExitedLeaders(ghost from: nat)
      requires Accounted(from)
      modifies this`trace, this`errors
      ensures old(trace) <= trace && Accounted(from) && Quiet(trace, old(|trace|)) && NoReads(trace, old(|trace|))
      ensures forall c | c in processes :: Since(trace, old(|trace|), LeaderPolled(c.pid))
    {
      for i := 0 to |processes|
        invariant old(trace) <= trace && Accounted(from) && Quiet(trace, old(|trace|)) && NoReads(trace, old(|trace|))
        invariant forall j | 0 <= j < i :: Since(trace, old(|trace|), LeaderPolled(processes[j].pid))
      {
        ghost var was := trace;
        var raised: bool := *;
        Observe(Polled(processes[i].pid, raised), from);
        assert Shows(trace[|was|], LeaderPolled(processes[i].pid));
        forall j | 0 <= j < i ensures Since(trace, old(|trace|), LeaderPolled(processes[j].pid)) {
          SinceKept(was, trace, old(|trace|), old(|trace|), LeaderPolled(processes[j].pid));
        }
      }
    }

    /** `any(group_is_alive(...))` over the roster, stopping at the first live group. */
    method AnyAlive(ghost from: nat) returns (any: bool)
      requires Accounted(from)
      modifies this`trace, this`errors
      ensures old(trace) <= trace && Accounted(from) && Quiet(trace, old(|trace|))
      ensures NoReads(trace, old(|trace|))
      ensures !any ==> forall i | 0 <= i < |processes| :: Since(trace, old(|trace|), Dead(processes[i].pid))
      ensures any ==> exists c | c in processes :: Since(trace, old(|trace|), NotDead(c.pid))
    {
      for i := 0 to |processes|
        invariant old(trace) <= trace && Accounted(from) && Quiet(trace, old(|trace|)) && NoReads(trace, old(|trace|))
        invariant forall j | 0 <= j < i :: Since(trace, old(|trace|), Dead(processes[j].pid))
      {
        ghost var was := trace;
        var alive, e := GroupIsAlive(processes[i].pid, from);
        if alive {
          assert Shows(trace[|was|], NotDead(processes[i].pid)) && processes[i] in processes;
          return true;
        }
        assert Shows(trace[|was|], Dead(processes[i].pid));
        forall j | 0 <= j < i ensures Since(trace, old(|trace|), Dead(processes[j].pid)) {
          SinceKept(was, trace, old(|trace|), old(|trace|), Dead(processes[j].pid));
        }
      }
      return false;
    }

    /** One reading of the clock, on the record. */
    method ReadClock(ghost from: nat) returns (t: int)
      requires Accounted(from)
      modifies this`trace, this`errors, this`now
      ensures t == now >= old(now) && trace == old(trace) + [ClockRead(t)] && Accounted(from)
    {
      t := Tick();
      Observe(ClockRead(t), from);
    }

    /** Sleeping advances the clock by at least the interval. */
    method Sleep()
      requires pollInterval > 0
      modifies this`now
      ensures now >= old(now) + pollInterval
    {
      var later: int := *;
      now := if later > now + pollInterval then later else now + pollInterval;
    }

    /** One signal to every group in reverse order; `sent` lists the attempts in the order of `children`. */
    method SignalPass(children: seq<Child>, signal: Signal, ghost from: nat) returns (ghost sent: seq<Event>)
      requires Accounted(from)
      modifies this`trace, this`errors
      ensures Accounted(from) && trace == old(trace) + Backwards(sent)
      ensures |sent| == |children| && forall i | 0 <= i < |children| :: Shows(sent[i], Sent(children[i].pid, signal))
    {
      sent := [];
      var n := |children|;
      for i := n downto 0
        invariant Accounted(from) && |sent| == n - i
        invariant trace == old(trace) + Backwards(sent)
        invariant forall j | 0 <= j < |sent| :: Shows(sent[j], Sent(children[i + j].pid, signal))
      {
        var e := SignalGroup(children[i].pid, signal, from);
        assert ([e] + sent)[1..] == sent;
        sent := [e] + sent;
      }
    }

    /** Waits until every group has been shown dead or the stop timeout has passed, whichever is first. */
    method AwaitTerm(ghost from: nat)
      requires Accounted(from) && pollInterval > 0
      modifies this`trace, this`errors, this`now
      ensures old(trace) <= trace && Accounted(from) && Quiet(trace, old(|trace|))
      ensures || TimedOut(trace, old(|trace|), |trace|, stopTimeout)
              || forall c | c in processes :: Since(trace, old(|trace|), Dead(c.pid))
      // between two readings of the clock every leader is polled and some group is found not dead
      ensures Turns(trace, old(|trace|), |trace|, [], processes)
    {
      ghost var start := |trace|;
      var t := ReadClock(from);
      var deadline := t + stopTimeout;
      assert trace[start] == ClockRead(deadline - stopTimeout);
      t := ReadClock(from);
      while t < deadline
        invariant old(trace) <= trace && Accounted(from) && Quiet(trace, start) && t <= now
        invariant |trace| >= start + 2 && trace[start] == ClockRead(deadline - stopTimeout)
        invariant trace[|trace| - 1] == ClockRead(t)
        invariant Turns(trace, start, |trace|, [], processes)
        decreases deadline - t
      {
        ghost var read := trace;
        var any := PollGroups(from);
        if !any {
          SinceEarlier(trace, |read|, start);
          TurnsAfterwards(read, trace, trace, start, [], processes);
          return;
        }
        ghost var turned := trace;
        Sleep();
        t := ReadClock(from);
        TurnsPush(read, turned, t, start, [], [], processes);
      }
    }

    /** One turn of that loop. */
    method PollGroups(ghost from: nat) returns (any: bool)
      requires Accounted(from)
      modifies this`trace, this`errors
      ensures old(trace) <= trace && Accounted(from) && Quiet(trace, old(|trace|)) && NoReads(trace, old(|trace|))
      ensures !any ==> forall c | c in processes :: Since(trace, old(|trace|), Dead(c.pid))
      ensures any ==> Turn(trace, old(|trace|), |trace|, [], processes)
    {
      ReapExitedLeaders(from);
      ghost var reaped := trace;
      any := AnyAlive(from);
      if any {
        TermTurn(old(trace), reaped, trace, processes);
      } else {
        SinceEarlier(trace, |reaped|, old(|trace|));
      }
    }

    /** The SIGTERM pass and its grace period. */
    method TermAndWait(ghost from: nat) returns (ghost terms: seq<Event>)
      requires from == |trace| && Accounted(from) && pollInterval > 0
      modifies this`trace, this`errors, this`now
      ensures Accounted(from) && Grace(old(trace), trace, terms, processes, stopTimeout)
    {
      terms := SignalPass(processes, SigTerm, from);
      BackwardsLength(terms);
      AwaitTerm(from);
      PatientIfDead(trace, from + |terms|, stopTimeout, processes);
    }

    /** One probe of each child, in order; `alive` are exactly those not shown dead. */
    method ProbeAll(children: seq<Child>, ghost from: nat) returns (alive: seq<Child>, ghost probes: seq<Event>)
      requires Accounted(from)
      modifies this`trace, this`errors
      ensures trace == old(trace) + probes && |probes| == |children| && Accounted(from)
      ensures forall i | 0 <= i < |children| :: ProbeOf(probes[i], children[i].pid)
      ensures alive == NotShownDead(children, probes)
    {
      alive, probes := [], [];
      for i := 0 to |children|
        invariant Accounted(from) && trace == old(trace) + probes && |probes| == i
        invariant forall j | 0 <= j < i :: ProbeOf(probes[j], children[j].pid)
        invariant alive == NotShownDead(children[..i], probes)
      {
        var up, e := GroupIsAlive(children[i].pid, from);
        NotShownDeadPush(children[..i], probes, children[i], e);
        assert children[..i + 1] == children[..i] + [children[i]];
        probes := probes + [e];
        if up {
          alive := alive + [children[i]];
        }
      }
      assert children[..|children|] == children;
    }

    /** Drops survivors as they are seen dead, until none is left or the second deadline passes. */
    method AwaitKill(survivors: seq<Child>, ghost from: nat) returns (left: seq<Child>)
      requires Accounted(from) && pollInterval > 0
      modifies this`trace, this`errors, this`now
      ensures old(trace) <= trace && Accounted(from) && Quiet(trace, old(|trace|))
      ensures left == [] || TimedOut(trace, old(|trace|), |trace|, stopTimeout)
      // between two readings of the clock every leader is polled and everybody who is left is found not dead
      ensures left == [] || Turns(trace, old(|trace|), |trace|, left, processes)
      ensures forall c | c in survivors :: c in left || Since(trace, old(|trace|), Dead(c.pid))
      ensures forall c | c in left :: c in survivors
    {
      ghost var start := |trace|;
      left := survivors;
      var t := ReadClock(from);
      var deadline := t + stopTimeout;
      if left == [] {
        return;
      }
      t := ReadClock(from);
      while t < deadline
        invariant old(trace) <= trace && Accounted(from) && Quiet(trace, start) && t <= now && left != []
        invariant |trace| > start + 1 && trace[start] == ClockRead(deadline - stopTimeout)
        invariant trace[|trace| - 1] == ClockRead(t) && Turns(trace, start, |trace|, left, processes)
        invariant forall c | c in survivors :: c in left || Since(trace, start, Dead(c.pid))
        invariant forall c | c in left :: c in survivors
        decreases deadline - t
      {
        ghost var read, waiting := trace, left;
        left := PollSurvivors(survivors, left, start, from);
        if left == [] {
          return;
        }
        ghost var turned := trace;
        Sleep();
        t := ReadClock(from);
        TurnsPush(read, turned, t, start, waiting, left, processes);
        DroppedStay(survivors, left, turned, trace, start);
      }
    }

    /** One turn of that loop. */
    method PollSurvivors(survivors: seq<Child>, waiting: seq<Child>, ghost start: nat, ghost from: nat)
      returns (left: seq<Child>)
      requires Accounted(from) && start <= |trace| && Quiet(trace, start)
      requires forall c | c in survivors :: c in waiting || Since(trace, start, Dead(c.pid))
      modifies this`trace, this`errors
      ensures old(trace) <= trace && Accounted(from) && Quiet(trace, start) && NoReads(trace, old(|trace|))
      ensures left != [] ==> Turn(trace, old(|trace|), |trace|, left, processes)
      ensures forall c | c in survivors :: c in left || Since(trace, start, Dead(c.pid))
      ensures forall c | c in left :: c in waiting
    {
      ghost var was := trace;
      ReapExitedLeaders(from);
      ghost var reaped := trace;
      left := StillAlive(waiting, from);
      forall c | c in survivors && c !in left ensures Since(trace, start, Dead(c.pid)) {
        SinceKept(if c in waiting then trace else was, trace,
                  if c in waiting then |reaped| else start, start, Dead(c.pid));
      }
      if left != [] {
        KillTurn(was, reaped, trace, left, processes);
      }
    }

    /** One more probe of each survivor; whoever is dropped was shown dead. */
    method StillAlive(survivors: seq<Child>, ghost from: nat) returns (left: seq<Child>)
      requires Accounted(from)
      modifies this`trace, this`errors
      ensures old(trace) <= trace && Accounted(from) && Quiet(trace, old(|trace|)) && NoReads(trace, old(|trace|))
      ensures forall c | c in survivors :: c in left || Since(trace, old(|trace|), Dead(c.pid))
      ensures forall c | c in left :: c in survivors && Since(trace, old(|trace|), NotDead(c.pid))
    {
      ghost var was := trace;
      ghost var probes;
      left, probes := ProbeAll(survivors, from);
      ProbesShow(was, probes, trace, survivors);
      SurvivorsNotDead(was, probes, trace, survivors);
    }

    method ReapLeaders(ghost from: nat)
      requires Accounted(from)
      modifies this`trace, this`errors
      ensures old(trace) <= trace && Accounted(from) && Quiet(trace, old(|trace|)) && NoReads(trace, old(|trace|))
      ensures forall c | c in processes :: Since(trace, old(|trace|), WaitedFor(c.pid))
    {
      for i := 0 to |processes|
        invariant old(trace) <= trace && Accounted(from) && Quiet(trace, old(|trace|)) && NoReads(trace, old(|trace|))
        invariant forall j | 0 <= j < i :: Since(trace, old(|trace|), WaitedFor(processes[j].pid))
      {
        ghost var was := trace;
        var reaped: bool := *;
        Observe(Waited(processes[i].pid, reaped), from);
        assert Shows(trace[|was|], WaitedFor(processes[i].pid));
        forall j | 0 <= j < i ensures Since(trace, old(|trace|), WaitedFor(processes[j].pid)) {
          SinceKept(was, trace, old(|trace|), old(|trace|), WaitedFor(processes[j].pid));
        }
      }
    }

    method CloseLogs(ghost from: nat)
      requires Accounted(from)
      modifies this`trace, this`errors, this`logHandles
      ensures old(trace) <= trace && Accounted(from) && Quiet(trace, old(|trace|))
      ensures logHandles == [] && forall log | log in old(logHandles) :: Since(trace, old(|trace|), LogClosed(log))
    {
      for i := 0 to |logHandles|
        invariant old(trace) <= trace && Accounted(from) && Quiet(trace, old(|trace|))
        invariant logHandles == old(logHandles)
        invariant forall j | 0 <= j < i :: Since(trace, old(|trace|), LogClosed(logHandles[j]))
      {
        ghost var was := trace;
        var failed: bool := *;
        Observe(Closed(logHandles[i], failed), from);
        assert Shows(trace[|was|], LogClosed(logHandles[i]));
        forall j | 0 <= j < i ensures Since(trace, old(|trace|), LogClosed(logHandles[j])) {
          SinceKept(was, trace, old(|trace|), old(|trace|), LogClosed(logHandles[j]));
        }
      }
      logHandles := [];
    }

    method RecordSurvivors(left: seq<Child>, ghost from: nat)
      requires Accounted(from) && recorded == {}
      modifies this`errors, this`recorded
      ensures Accounted(from) && recorded == SurvivorKeys(left)
    {
      for i := 0 to |left|
        invariant Accounted(from) && recorded == SurvivorKeys(left[..i])
      {
        assert left[..i + 1] == left[..i] + [left[i]];
        errors := errors + {Survivor(left[i].pid)};
        recorded := recorded + {Survivor(left[i].pid)};
      }
      assert left[..|left|] == left;
    }

    /**
     Everything after the SIGKILL pass: wait for the groups, reap the leaders, probe once
     more who is left, record them, close the logs.
     */
    method FinishStop(survivors: seq<Child>, ghost from: nat) returns (ghost last: Wait)
      requires Accounted(from) && pollInterval > 0 && recorded == {}
      modifies this`trace, this`errors, this`now, this`logHandles, this`recorded
      ensures old(trace) <= trace && Accounted(from) && Quiet(trace, old(|trace|))
      ensures WaitedOut(last, survivors, trace, old(|trace|), stopTimeout, processes)
          && recorded == SurvivorKeys(LeftOver(last))
      ensures forall c | c in processes :: Since(trace, old(|trace|), WaitedFor(c.pid))
      ensures logHandles == [] && forall log | log in old(logHandles) :: Since(trace, old(|trace|), LogClosed(log))
    {
      ghost var start := |trace|;
      var waiting := AwaitKill(survivors, from);
      ghost var t1 := trace;
      ReapLeaders(from);
      ghost var t2 := trace;
      var left;
      ghost var finals;
      left, finals := ProbeAll(waiting, from);
      ghost var t3 := trace;
      last := Wait(waiting, |t2|, finals);
      RecordSurvivors(left, from);
      CloseLogs(from);
      WaitedLater(last, survivors, t1, t2, trace, start, stopTimeout, processes);
      forall c | c in processes ensures Since(trace, start, WaitedFor(c.pid)) {
        SinceKept(t2, trace, |t1|, start, WaitedFor(c.pid));
      }
      SinceEarlier(trace, |t3|, start);
    }

    /** The survivor probes, and SIGKILL for exactly those not shown dead. */
    method KillSurvivors(ghost from: nat)
      returns (survivors: seq<Child>, ghost probes: seq<Event>, ghost kills: seq<Event>)
      requires Accounted(from)
      modifies this`trace, this`errors
      ensures Accounted(from) && trace == (old(trace) + probes) + Backwards(kills)
      ensures |probes| == |processes| && forall i | 0 <= i < |processes| :: ProbeOf(probes[i], processes[i].pid)
      ensures survivors == NotShownDead(processes, probes) && KillsAre(kills, survivors)
    {
      survivors, probes := ProbeAll(processes, from);
      kills := SignalPass(survivors, SigKill, from);
    }

    /** From the TERM deadline on: probe everyone, kill exactly the survivors, finish. */
    method Escalate(ghost from: nat, ghost terms: seq<Event>) returns (ghost run: Shutdown)
      requires Accounted(from) && pollInterval > 0 && recorded == {}
      modifies this`trace, this`errors, this`now, this`logHandles, this`recorded
      ensures Accounted(from) && run.terms == terms && run.at == old(|trace|)
      ensures old(trace) <= trace && Escalated(old(trace), trace, run, processes, stopTimeout)
      ensures recorded == SurvivorKeys(LeftOver(run.last))
      ensures forall c | c in processes :: Since(trace, old(|trace|), WaitedFor(c.pid))
      ensures logHandles == [] && forall log | log in old(logHandles) :: Since(trace, old(|trace|), LogClosed(log))
    {
      var survivors;
      ghost var probes, kills;
      survivors, probes, kills := KillSurvivors(from);
      ghost var killed := trace;
      ghost var last := FinishStop(survivors, from);
      run := Shutdown(terms, old(|trace|), probes, kills, last);
      EscalatedBy(old(trace), killed, trace, run, processes, stopTimeout);
      SinceEarlier(trace, |killed|, old(|trace|));
    }

    /** `stop_all` up to its report. Every list in `run` is in roster order. */
    method StopEverything() returns (ghost run: Shutdown)
      requires pollInterval > 0
      modifies this`trace, this`errors, this`now, this`logHandles, this`recorded
      ensures old(|trace|) <= run.at <= |trace| && Stopped(old(trace), trace, run, processes, stopTimeout)
      ensures errors == FaultKeys(trace[old(|trace|)..]) + SurvivorKeys(LeftOver(run.last))
      ensures forall c | c in processes :: Since(trace, run.at, WaitedFor(c.pid))
      ensures logHandles == [] && forall log | log in old(logHandles) :: Since(trace, run.at, LogClosed(log))
    {
      errors, recorded := {}, {};
      assert trace[|trace|..] == [];
      ghost var terms := TermAndWait(old(|trace|));
      ghost var awaited := trace;
      run := Escalate(old(|trace|), terms);
      StopIs(old(trace), awaited, trace, run, processes, stopTimeout);
    }

    /** `stop_all`. */
    method StopAll() returns (ok: bool, ghost run: Shutdown)
      requires pollInterval > 0
      modifies this`trace, this`errors, this`now, this`logHandles, this`recorded
      // the signals, the two waits and the probes, in order and complete, whatever fails on the way
      ensures old(|trace|) <= run.at <= |trace| && Stopped(old(trace), trace, run, processes, stopTimeout)
      // every leader is waited for and every log handle closed, whatever failed before it
      ensures forall c | c in processes :: Since(trace, run.at, WaitedFor(c.pid))
      ensures logHandles == [] && forall log | log in old(logHandles) :: Since(trace, run.at, LogClosed(log))
      // the errors name exactly what went wrong and who is left over
      ensures Reported(errors, trace[old(|trace|)..], LeftOver(run.last))
      // success, exactly: nothing went wrong and no group was left over
      ensures ok <==> AllWell(trace[old(|trace|)..]) && LeftOver(run.last) == []
      // then every group was shown dead, every leader reaped and every log closed
      ensures ok ==> forall c | c in processes :: Since(trace, run.at, Dead(c.pid)) && Waited(c.pid, true) in trace
      ensures ok ==> forall log | log in old(logHandles) :: Closed(log, false) in trace
    {
      run := StopEverything();
      ok := errors == {};
      StopReports(trace[old(|trace|)..], LeftOver(run.last));
      if ok {
        WellDone(trace, old(|trace|), run.at);
      }
    }
  }

  lemma {:induction false} BackwardsLength(events: seq<Event>)
    ensures |Backwards(events)| == |events|
  {
    if events != [] {
      BackwardsLength(events[1..]);
    }
  }
}
