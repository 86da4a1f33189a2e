/**
 Certification evidence: what the pytest plugin records, when two inventories count
 as a complete run, and when the manifest built from them certifies.
 */
module Certification {

  datatype Outcome = Passed | Skipped | Failed

  // ----- the plugin's outcome fold -----

  datatype Phase = Setup | Call | Teardown

  /** One `pytest_runtest_logreport` report. */
  datatype Report = Report(nodeid: string, verdict: Outcome, phase: Phase, xfail: bool)

  predicate CountsSkipped(r: Report) {
    !r.verdict.Failed? && (r.verdict.Skipped? || r.xfail)
  }

  predicate CountsPassed(r: Report) {
    r.verdict.Passed? && !r.xfail && r.phase.Call?
  }

  /** What one report does to the recorded outcomes. */
  function LogReport(outcomes: map<string, Outcome>, r: Report): map<string, Outcome> {
    var known := r.nodeid in outcomes;
    if r.verdict.Failed? then outcomes[r.nodeid := Failed]
    else if CountsSkipped(r) then
      if known && outcomes[r.nodeid].Failed? then outcomes else outcomes[r.nodeid := Skipped]
    else if CountsPassed(r) && !(known && !outcomes[r.nodeid].Passed?) then outcomes[r.nodeid := Passed]
    else outcomes
  }

  function LogAll(outcomes: map<string, Outcome>, reports: seq<Report>): map<string, Outcome> {
    if reports == [] then outcomes
    else LogReport(LogAll(outcomes, reports[..|reports| - 1]), reports[|reports| - 1])
  }

  predicate AnyFailed(reports: multiset<Report>, nodeid: string) {
    exists r | r in reports :: r.nodeid == nodeid && r.verdict.Failed?
  }

  predicate AnySkipped(reports: multiset<Report>, nodeid: string) {
    exists r | r in reports :: r.nodeid == nodeid && CountsSkipped(r)
  }

  predicate AnyPassed(reports: multiset<Report>, nodeid: string) {
    exists r | r in reports :: r.nodeid == nodeid && CountsPassed(r)
  }

  /** Failed over skipped over passed, whatever the order of the reports. */
  lemma {:induction false} OutcomeByPrecedence(reports: seq<Report>, nodeid: string)
    ensures var out, m := LogAll(map[], reports), multiset(reports);
            if AnyFailed(m, nodeid) then nodeid in out && out[nodeid] == Failed
            else if AnySkipped(m, nodeid) then nodeid in out && out[nodeid] == Skipped
            else if AnyPassed(m, nodeid) then nodeid in out && out[nodeid] == Passed
            else nodeid !in out
  {
    if reports != [] {
      var init, last := reports[..|reports| - 1], reports[|reports| - 1];
      OutcomeByPrecedence(init, nodeid);
      assert reports == init + [last];
      AnyPush(init, last, nodeid);
    }
  }

  lemma AnyPush(init: seq<Report>, last: Report, nodeid: string)
    ensures var m, m' := multiset(init), multiset(init + [last]);
            && (AnyFailed(m', nodeid) <==> AnyFailed(m, nodeid) || (last.nodeid == nodeid && last.verdict.Failed?))
            && (AnySkipped(m', nodeid) <==> AnySkipped(m, nodeid) || (last.nodeid == nodeid && CountsSkipped(last)))
            && (AnyPassed(m', nodeid) <==> AnyPassed(m, nodeid) || (last.nodeid == nodeid && CountsPassed(last)))
  {
    assert multiset(init + [last]) == multiset(init) + multiset{last};
  }

  /** Any reordering of the reports records the same outcomes. */
  lemma OutcomesIgnoreOrder(a: seq<Report>, b: seq<Report>)
    requires multiset(a) == multiset(b)
    ensures LogAll(map[], a) == LogAll(map[], b)
  {
    forall nodeid ensures nodeid in LogAll(map[], a) <==> nodeid in LogAll(map[], b)
                  ensures nodeid in LogAll(map[], a) ==> LogAll(map[], a)[nodeid] == LogAll(map[], b)[nodeid]
    {
      OutcomeByPrecedence(a, nodeid);
      OutcomeByPrecedence(b, nodeid);
    }
  }

  /** The plugin's module state. */
  class Plugin {
    var collected: seq<string>
    var selected: seq<string>
    var deselected: map<string, set<string>>
    var outcomes: map<string, Outcome>

    constructor ()
      ensures collected == [] && selected == [] && deselected == map[] && outcomes == map[]
    {
      collected, selected, deselected, outcomes := [], [], map[], map[];
    }

    method CollectionModifyItems(items: seq<string>)
      modifies this`collected
      ensures collected == old(collected) + items
    {
      collected := collected + items;
    }

    /** The forbidden markers of each deselected item, later reports of an item replacing earlier ones. */
    method Deselected(items: seq<(string, set<string>)>, forbidden: set<string>)
      modifies this`deselected
      ensures deselected.Keys == old(deselected).Keys + set i | 0 <= i < |items| :: items[i].0
      ensures forall i | 0 <= i < |items| && (forall j | i < j < |items| :: items[j].0 != items[i].0) ::
                items[i].0 in deselected && deselected[items[i].0] == items[i].1 * forbidden
      ensures forall id | id in old(deselected) && (forall i | 0 <= i < |items| :: items[i].0 != id) ::
                id in deselected && deselected[id] == old(deselected)[id]
    {
      for k := 0 to |items|
        invariant deselected.Keys == old(deselected).Keys + set i | 0 <= i < k :: items[i].0
        invariant forall i | 0 <= i < k && (forall j | i < j < k :: items[j].0 != items[i].0) ::
                    items[i].0 in deselected && deselected[items[i].0] == items[i].1 * forbidden
        invariant forall id | id in old(deselected) && (forall i | 0 <= i < k :: items[i].0 != id) ::
                    id in deselected && deselected[id] == old(deselected)[id]
      {
        deselected := deselected[items[k].0 := items[k].1 * forbidden];
      }
    }

    method CollectionFinish(items: seq<string>)
      modifies this`selected
      ensures selected == old(selected) + items
    {
      selected := selected + items;
    }

    method RunLogReport(r: Report)
      modifies this`outcomes
      ensures outcomes == LogReport(old(outcomes), r)
    {
      var current := if r.nodeid in outcomes then [outcomes[r.nodeid]] else [];
      if r.verdict.Failed? {
        outcomes := outcomes[r.nodeid := Failed];
      } else if r.verdict.Skipped? || r.xfail {
        if current != [Failed] {
          outcomes := outcomes[r.nodeid := Skipped];
        }
      } else if r.phase.Call? && r.verdict.Passed? && current != [Failed] && current != [Skipped] {
        outcomes := outcomes[r.nodeid := Passed];
      }
    }
  }

  // ----- inventories -----

  /**
   One inventory file. `wellFormed` stands for the schema, mode, exit-code, selector,
   environment and producer checks.
   */
  datatype Inventory = Inventory(
    collected: seq<string>,
    selected: seq<string>,
    deselected: map<string, set<string>>,
    outcomes: map<string, Outcome>,
    canonicalMarker: bool,
    wellFormed: bool)

  datatype Problem =
    | Unreadable | ZeroTests | DuplicateIds | CollectionDiffers | SelectionDiffers | DeselectionDiffers
    | OutcomesDoNotCover | OwnerCount(nodeid: string) | PathSelectsNothing(path: string)
    | PathNotFullyPassed(path: string) | SkippedOrFailed | NotAllPassed

  /** The conditions under which `_read_inventory` returns a payload. */
  predicate Readable(inv: Inventory) {
    && inv.wellFormed
    && (forall id | id in inv.deselected :: inv.deselected[id] != {})
    && (inv.deselected != map[] ==> inv.canonicalMarker)
    && multiset(inv.selected) + multiset(inv.deselected.Keys) == multiset(inv.collected)
    && (forall id | id in inv.selected :: id !in inv.deselected)
    && (multiset(inv.selected) != multiset(inv.collected) ==> inv.canonicalMarker)
  }

  datatype InventoryError = Malformed | NoReason(nodeid: string) | Deselects | CountsDiffer | NotDisjoint | SelectsFewer

  /** The checks of `_read_inventory`, each adding its error; the payload is returned if there is none. */
  method ReadInventory(inv: Inventory) returns (errors: seq<InventoryError>)
    ensures errors == [] <==> Readable(inv)
  {
    errors := if inv.wellFormed then [] else [Malformed];
    var ids := inv.deselected.Keys;
    while ids != {}
      invariant ids <= inv.deselected.Keys
      invariant errors == [] <==>
                  inv.wellFormed && forall id | id in inv.deselected && id !in ids :: inv.deselected[id] != {}
      decreases |ids|
    {
      var id :| id in ids;
      if inv.deselected[id] == {} {
        errors := errors + [NoReason(id)];
      }
      ids := ids - {id};
    }
    if inv.deselected != map[] && !inv.canonicalMarker {
      errors := errors + [Deselects];
    }
    if multiset(inv.selected) + multiset(inv.deselected.Keys) != multiset(inv.collected) {
      errors := errors + [CountsDiffer];
    }
    if exists id | id in inv.selected :: id in inv.deselected {
      errors := errors + [NotDisjoint];
    }
    if multiset(inv.selected) != multiset(inv.collected) && !inv.canonicalMarker {
      errors := errors + [SelectsFewer];
    }
  }

  // ----- which path owns a test -----

  function NodeFile(nodeid: string): string {
    if nodeid == [] || "::" <= nodeid then [] else [nodeid[0]] + NodeFile(nodeid[1..])
  }

  function StripSlashes(s: string): string {
    if s != [] && s[|s| - 1] == '/' then StripSlashes(s[..|s| - 1]) else s
  }

  /** "::" stands at this place. */
  predicate MarkAt(s: string, k: nat) {
    k + 1 < |s| && s[k] == ':' && s[k + 1] == ':'
  }

  predicate NoMark(s: string) {
    forall k: nat | k < |s| :: !MarkAt(s, k)
  }

  lemma MarkFirst(s: string)
    ensures "::" <= s <==> MarkAt(s, 0)
  {
    if MarkAt(s, 0) {
      assert s[..2] == "::";
    }
  }

  /** A test id is its file, up to the first "::", and the rest. */
  lemma {:induction false} NodeFileSplits(nodeid: string)
    ensures NodeFile(nodeid) <= nodeid && NoMark(NodeFile(nodeid))
    ensures NodeFile(nodeid) != nodeid ==> MarkAt(nodeid, |NodeFile(nodeid)|)
    ensures NoMark(nodeid) ==> NodeFile(nodeid) == nodeid
  {
    MarkFirst(nodeid);
    if nodeid != [] && !MarkAt(nodeid, 0) {
      var rest := nodeid[1..];
      NodeFileSplits(rest);
      var file := NodeFile(nodeid);
      assert forall k: nat | k < |rest| :: MarkAt(rest, k) <==> MarkAt(nodeid, k + 1);
      NoMarkPush(nodeid[0], NodeFile(rest), nodeid);
      assert nodeid == [nodeid[0]] + rest;
    }
  }

  lemma NoMarkPush(c: char, file: string, nodeid: string)
    requires NoMark(file) && [c] + file <= nodeid && !MarkAt(nodeid, 0)
    ensures NoMark([c] + file)
  {
    forall k: nat | k < 1 + |file| ensures !MarkAt([c] + file, k) {
      if k > 0 {
        assert MarkAt([c] + file, k) <==> MarkAt(file, k - 1);
      }
    }
  }

  /** Only trailing slashes are stripped. */
  lemma {:induction false} StripSlashesMeans(s: string)
    ensures StripSlashes(s) <= s && !EndsInSlash(StripSlashes(s))
    ensures forall k | |StripSlashes(s)| <= k < |s| :: s[k] == '/'
  {
    if EndsInSlash(s) {
      StripSlashesMeans(s[..|s| - 1]);
    }
  }

  predicate EndsInSlash(s: string) {
    s != [] && s[|s| - 1] == '/'
  }

  /**
   A test belongs to a `.py` path exactly if that is its file, and to any other path
   exactly if its file is that path or lies below it; slashes at the end do not count.
   */
  lemma BelongsToExactly(nodeid: string, path: string, slashes: nat)
    requires !EndsInSlash(path)
    ensures ".py" == LastThree(path) ==> (BelongsTo(nodeid, path) <==> NodeFile(nodeid) == path)
    ensures ".py" != LastThree(path) || slashes > 0 ==>
              (BelongsTo(nodeid, path + Slashes(slashes)) <==> Below(NodeFile(nodeid), path))
  {
    SlashesAreStripped(path, slashes);
    NotPython(path, slashes);
    BelowIsPrefix(NodeFile(nodeid), path);
  }

  /** The file is the path itself, or stands below it. */
  ghost predicate Below(file: string, path: string) {
    file == path || exists rest :: file == path + "/" + rest
  }

  lemma BelowIsPrefix(file: string, path: string)
    ensures Below(file, path) <==> file == path || path + "/" <= file
  {
    if path + "/" <= file {
      assert file == path + "/" + file[|path| + 1..];
    }
  }

  lemma NotPython(path: string, slashes: nat)
    ensures ".py" != LastThree(path) || slashes > 0 ==> LastThree(path + Slashes(slashes)) != ".py"
  {
    if slashes == 0 {
      assert path + Slashes(0) == path;
    } else {
      var text := path + Slashes(slashes);
      assert text[|text| - 1] == '/';
      assert |text| >= 3 ==> LastThree(text)[2] == '/';
    }
  }

  function LastThree(s: string): string {
    if |s| < 3 then [] else s[|s| - 3..]
  }

  function Slashes(n: nat): (s: string)
    ensures |s| == n && forall c | c in s :: c == '/'
  {
    if n == 0 then [] else Slashes(n - 1) + "/"
  }

  lemma {:induction false} SlashesAreStripped(path: string, n: nat)
    requires !EndsInSlash(path)
    ensures StripSlashes(path + Slashes(n)) == path
    decreases n
  {
    if n == 0 {
      assert path + Slashes(0) == path;
    } else {
      var s := path + Slashes(n);
      assert s[..|s| - 1] == path + Slashes(n - 1) && s[|s| - 1] == '/';
      SlashesAreStripped(path, n - 1);
    }
  }

  predicate BelongsTo(nodeid: string, path: string) {
    var file := NodeFile(nodeid);
    if |path| >= 3 && path[|path| - 3..] == ".py" then file == path
    else var prefix := StripSlashes(path); file == prefix || prefix + "/" <= file
  }

  function Owners(nodeid: string, paths: seq<string>): (owners: seq<string>)
    ensures forall p | p in owners :: p in paths
  {
    if paths == [] then []
    else (if BelongsTo(nodeid, paths[0]) then [paths[0]] else []) + Owners(nodeid, paths[1..])
  }

  lemma {:induction false} OwnersMember(nodeid: string, paths: seq<string>, p: string)
    ensures p in Owners(nodeid, paths) <==> p in paths && BelongsTo(nodeid, p)
  {
    if paths != [] {
      OwnersMember(nodeid, paths[1..], p);
    }
  }

  predicate OwnedBy(nodeid: string, paths: seq<string>, p: string) {
    |Owners(nodeid, paths)| == 1 && Owners(nodeid, paths)[0] == p
  }

  ghost predicate OneOwner(id: string, paths: seq<string>) {
    exists p :: OwnedBy(id, paths, p)
  }

  function CountOwned(nodes: seq<string>, paths: seq<string>, p: string): nat {
    if nodes == [] then 0
    else CountOwned(nodes[..|nodes| - 1], paths, p) + (if OwnedBy(nodes[|nodes| - 1], paths, p) then 1 else 0)
  }

  predicate NodePassed(outcomes: map<string, Outcome>, nodeid: string) {
    nodeid in outcomes && outcomes[nodeid] == Passed
  }

  function CountPassedOwned(nodes: seq<string>, paths: seq<string>, outcomes: map<string, Outcome>, p: string): nat {
    if nodes == [] then 0
    else
      var last := nodes[|nodes| - 1];
      CountPassedOwned(nodes[..|nodes| - 1], paths, outcomes, p)
      + (if OwnedBy(last, paths, p) && NodePassed(outcomes, last) then 1 else 0)
  }

  function CountOutcome(nodes: seq<string>, outcomes: map<string, Outcome>, o: Outcome): nat {
    if nodes == [] then 0
    else
      var last := nodes[|nodes| - 1];
      CountOutcome(nodes[..|nodes| - 1], outcomes, o) + (if last in outcomes && outcomes[last] == o then 1 else 0)
  }

  predicate NoDuplicates(s: seq<string>) {
    forall i, j | 0 <= i < j < |s| :: s[i] != s[j]
  }

  // ----- completeness -----

  datatype Counts = Counts(tests: nat, passed: nat, skipped: nat, failed: nat)

  /** The two runs name the same tests, once each, and the execution has an outcome for exactly the selected ones. */
  ghost predicate Agree(expected: Inventory, execution: Inventory) {
    && expected.collected != [] && NoDuplicates(expected.collected)
    && multiset(expected.collected) == multiset(execution.collected)
    && multiset(expected.selected) == multiset(execution.selected)
    && expected.deselected == execution.deselected
    && (forall id :: id in execution.outcomes <==> id in execution.selected)
  }

  /** What "complete" promises, stated without the counting that establishes it. */
  ghost predicate Complete(expected: Inventory, execution: Inventory, paths: seq<string>) {
    && Readable(expected) && Readable(execution)
    && Agree(expected, execution)
    && (forall id | id in expected.selected :: OneOwner(id, paths))
    && (forall p | p in paths :: exists id | id in expected.selected :: OwnedBy(id, paths, p))
    && (forall id | id in execution.selected :: NodePassed(execution.outcomes, id))
  }

  lemma {:induction false} CountOwnedPositive(nodes: seq<string>, paths: seq<string>, p: string)
    ensures CountOwned(nodes, paths, p) > 0 <==> exists id | id in nodes :: OwnedBy(id, paths, p)
  {
    if nodes != [] {
      CountOwnedPositive(nodes[..|nodes| - 1], paths, p);
      assert nodes == nodes[..|nodes| - 1] + [nodes[|nodes| - 1]];
    }
  }

  lemma {:induction false} AllPassedCounts(nodes: seq<string>, outcomes: map<string, Outcome>)
    ensures CountOutcome(nodes, outcomes, Passed) <= |nodes|
    ensures CountOutcome(nodes, outcomes, Passed) == |nodes| <==> forall id | id in nodes :: NodePassed(outcomes, id)
    ensures CountOutcome(nodes, outcomes, Passed) == |nodes| ==>
              CountOutcome(nodes, outcomes, Skipped) == 0 && CountOutcome(nodes, outcomes, Failed) == 0
  {
    if nodes != [] {
      var init, last := nodes[..|nodes| - 1], nodes[|nodes| - 1];
      AllPassedCounts(init, outcomes);
      assert nodes == init + [last];
      assert last in nodes && forall id | id in init :: id in nodes;
      if CountOutcome(nodes, outcomes, Passed) == |nodes| {
        forall id | id in nodes ensures NodePassed(outcomes, id) {
          assert id in init || id == last;
        }
      }
    }
  }

  lemma {:induction false} PassedOwnedIsOwned(nodes: seq<string>, paths: seq<string>, outcomes: map<string, Outcome>,
      p: string)
    requires forall id | id in nodes :: NodePassed(outcomes, id)
    ensures CountPassedOwned(nodes, paths, outcomes, p) == CountOwned(nodes, paths, p)
  {
    if nodes != [] {
      assert nodes[|nodes| - 1] in nodes && forall id | id in nodes[..|nodes| - 1] :: id in nodes;
      PassedOwnedIsOwned(nodes[..|nodes| - 1], paths, outcomes, p);
    }
  }

  /** Owner counts depend only on the multiset of tests. */
  lemma {:induction false} CountOwnedMultiset(a: seq<string>, b: seq<string>, paths: seq<string>, p: string)
    requires multiset(a) == multiset(b)
    ensures CountOwned(a, paths, p) == CountOwned(b, paths, p)
    decreases |a|
  {
    if a == [] {
      assert multiset(b) == multiset{};
      assert |b| == |multiset(b)|;
    } else {
      var x := a[|a| - 1];
      var i, b' := TakeOut(a, b);
      CountOwnedMultiset(a[..|a| - 1], b', paths, p);
      CountOwnedAppend(b[..i], b[i + 1..], paths, p);
      CountOwnedAppend(b[..i] + [x], b[i + 1..], paths, p);
      assert (b[..i] + [x])[..i] == b[..i];
    }
  }

  /** Drops the last element of `a` from both, wherever it is in `b`. */
  lemma TakeOut(a: seq<string>, b: seq<string>) returns (i: nat, b': seq<string>)
    requires a != [] && multiset(a) == multiset(b)
    ensures i < |b| && b[i] == a[|a| - 1] && b' == b[..i] + b[i + 1..]
    ensures b == (b[..i] + [a[|a| - 1]]) + b[i + 1..]
    ensures multiset(a[..|a| - 1]) == multiset(b')
  {
    var init, x := a[..|a| - 1], a[|a| - 1];
    assert a == init + [x];
    assert x in multiset(a);
    assert x in b;
    i :| 0 <= i < |b| && b[i] == x;
    b' := b[..i] + b[i + 1..];
    assert b == (b[..i] + [x]) + b[i + 1..];
    MultisetWithout(init, [], x);
    MultisetWithout(b[..i], b[i + 1..], x);
    assert init + [x] + [] == a && init + [] == init;
  }

  lemma MultisetWithout(front: seq<string>, back: seq<string>, x: string)
    ensures multiset(front + back) == multiset(front + [x] + back) - multiset{x}
  {
    assert multiset(front + [x] + back) == multiset(front + [x]) + multiset(back);
    assert multiset(front + [x]) == multiset(front) + multiset{x};
  }

  lemma {:induction false} CountOwnedAppend(a: seq<string>, b: seq<string>, paths: seq<string>, p: string)
    ensures CountOwned(a + b, paths, p) == CountOwned(a, paths, p) + CountOwned(b, paths, p)
    decreases |b|
  {
    if b == [] {
      assert a + b == a;
    } else {
      assert (a + b)[..|a + b| - 1] == a + b[..|b| - 1];
      CountOwnedAppend(a, b[..|b| - 1], paths, p);
    }
  }

  // ----- sums over paths -----

  function SumOver(paths: seq<string>, m: map<string, nat>): nat
    requires forall p | p in paths :: p in m
  {
    if paths == [] then 0 else SumOver(paths[..|paths| - 1], m) + m[paths[|paths| - 1]]
  }

  function OwnedMap(nodes: seq<string>, paths: seq<string>): (m: map<string, nat>)
    ensures m.Keys == set p | p in paths
  {
    map p | p in paths :: CountOwned(nodes, paths, p)
  }

  /** Raising one path's count by one raises the sum by one, when no path is listed twice. */
  lemma {:induction false} SumBump(paths: seq<string>, m: map<string, nat>, m': map<string, nat>, q: string)
    requires NoDuplicates(paths) && forall p | p in paths :: p in m && p in m'
    requires forall p | p in paths :: m'[p] == m[p] + if p == q then 1 else 0
    ensures SumOver(paths, m') == SumOver(paths, m) + if q in paths then 1 else 0
  {
    if paths != [] {
      var init, last := paths[..|paths| - 1], paths[|paths| - 1];
      assert last in paths && forall p | p in init :: p in paths;
      assert NoDuplicates(init) && last !in init;
      SumBump(init, m, m', q);
      assert q in paths <==> q in init || q == last;
    }
  }

  lemma {:induction false} SumOfZeros(paths: seq<string>, m: map<string, nat>)
    requires forall p | p in paths :: p in m && m[p] == 0
    ensures SumOver(paths, m) == 0
  {
    if paths != [] {
      assert paths[|paths| - 1] in paths && forall p | p in paths[..|paths| - 1] :: p in paths;
      SumOfZeros(paths[..|paths| - 1], m);
    }
  }

  /** Per-path counts sum to the number of tests when every test has exactly one owner. */
  lemma {:induction false} OwnedCountsSum(nodes: seq<string>, paths: seq<string>)
    requires NoDuplicates(paths) && forall id | id in nodes :: OneOwner(id, paths)
    ensures SumOver(paths, OwnedMap(nodes, paths)) == |nodes|
  {
    var m := OwnedMap(nodes, paths);
    if nodes == [] {
      SumOfZeros(paths, m);
    } else {
      var init, last := nodes[..|nodes| - 1], nodes[|nodes| - 1];
      assert last in nodes && forall id | id in init :: id in nodes;
      OwnedCountsSum(init, paths);
      var q :| OwnedBy(last, paths, q);
      assert q in Owners(last, paths);
      SumBump(paths, OwnedMap(init, paths), m, q);
    }
  }

  lemma {:induction false} OwnersSplit(nodeid: string, a: seq<string>, b: seq<string>)
    ensures Owners(nodeid, a + b) == Owners(nodeid, a) + Owners(nodeid, b)
  {
    if a == [] {
      assert a + b == b;
    } else {
      assert (a + b)[1..] == a[1..] + b && (a + b)[0] == a[0];
      OwnersSplit(nodeid, a[1..], b);
      var first := if BelongsTo(nodeid, a[0]) then [a[0]] else [];
      assert first + (Owners(nodeid, a[1..]) + Owners(nodeid, b)) == (first + Owners(nodeid, a[1..])) + Owners(nodeid,
          b);
    }
  }

  /** If every listed path is the only owner of some test, no path is listed twice. */
  lemma OwnedPathsAreDistinct(nodes: seq<string>, paths: seq<string>)
    requires forall p | p in paths :: exists id | id in nodes :: OwnedBy(id, paths, p)
    ensures NoDuplicates(paths)
  {
    forall i, j | 0 <= i < j < |paths| ensures paths[i] != paths[j] {
      assert paths[i] in paths;
      var id :| id in nodes && OwnedBy(id, paths, paths[i]);
      assert Owners(id, paths)[0] in Owners(id, paths);
      OwnersMember(id, paths, paths[i]);
      if paths[i] == paths[j] {
        TwiceListedTwiceOwned(id, paths, i, j);
      }
    }
  }

  lemma TwiceListedTwiceOwned(id: string, paths: seq<string>, i: nat, j: nat)
    requires i < j < |paths| && BelongsTo(id, paths[i]) && BelongsTo(id, paths[j])
    ensures |Owners(id, paths)| >= 2
  {
    var a, b := paths[..j], paths[j..];
    assert paths == a + b;
    OwnersSplit(id, a, b);
    assert a[i] in a && b[0] in b;
    OwnersMember(id, a, a[i]);
    OwnersMember(id, b, b[0]);
  }

  // ----- compare_inventories -----

  lemma OneOwnerIffLength(id: string, paths: seq<string>)
    ensures OneOwner(id, paths) <==> |Owners(id, paths)| == 1
  {
    if |Owners(id, paths)| == 1 {
      assert OwnedBy(id, paths, Owners(id, paths)[0]);
    }
  }

  function PassedMap(nodes: seq<string>, paths: seq<string>, outcomes: map<string, Outcome>): (m: map<string, nat>)
    ensures m.Keys == set p | p in paths
  {
    map p | p in paths :: CountPassedOwned(nodes, paths, outcomes, p)
  }

  lemma OwnedPush(nodes: seq<string>, id: string, paths: seq<string>, p: string)
    ensures CountOwned(nodes + [id], paths, p) == CountOwned(nodes, paths, p) + if OwnedBy(id, paths, p) then 1 else 0
  {
    assert (nodes + [id])[..|nodes|] == nodes;
  }

  lemma PassedPush(nodes: seq<string>, id: string, paths: seq<string>, outcomes: map<string, Outcome>, p: string)
    ensures CountPassedOwned(nodes + [id], paths, outcomes, p) ==
            CountPassedOwned(nodes, paths, outcomes, p)
            + if OwnedBy(id, paths, p) && NodePassed(outcomes, id) then 1 else 0
  {
    assert (nodes + [id])[..|nodes|] == nodes;
  }

  /** One more test for `owner`, if there is one. */
  method Bump(byPath: map<string, nat>, owners: seq<string>, yes: bool) returns (after: map<string, nat>)
    requires forall p | p in owners :: p in byPath
    ensures after.Keys == byPath.Keys
    ensures forall p | p in byPath :: after[p] == byPath[p] + if yes && |owners| == 1 && owners[0] == p then 1 else 0
  {
    after := byPath;
    if yes && |owners| == 1 {
      assert owners[0] in owners;
      after := after[owners[0] := after[owners[0]] + 1];
    }
  }

  lemma OwnedMapPush(nodes: seq<string>, id: string, paths: seq<string>, m: map<string, nat>)
    requires m.Keys == set p | p in paths
    requires forall p | p in paths :: m[p] == CountOwned(nodes, paths, p) + if OwnedBy(id, paths, p) then 1 else 0
    ensures m == OwnedMap(nodes + [id], paths)
  {
    forall p | p in paths ensures m[p] == CountOwned(nodes + [id], paths, p) {
      OwnedPush(nodes, id, paths, p);
    }
  }

  ghost predicate AllOwned(nodes: seq<string>, paths: seq<string>) {
    forall id | id in nodes :: OneOwner(id, paths)
  }

  lemma AllOwnedPush(nodes: seq<string>, id: string, paths: seq<string>)
    ensures AllOwned(nodes + [id], paths) <==> AllOwned(nodes, paths) && |Owners(id, paths)| == 1
  {
    OneOwnerIffLength(id, paths);
    assert id in nodes + [id] && forall x | x in nodes :: x in nodes + [id];
  }

  /** Tallies each path's uniquely owned tests; the problems name the tests without exactly one owner. */
  method TallyExpected(nodes: seq<string>, paths: seq<string>)
      returns (byPath: map<string, nat>, problems: seq<Problem>)
    ensures byPath == OwnedMap(nodes, paths)
    ensures problems == [] <==> AllOwned(nodes, paths)
  {
    byPath, problems := map p | p in paths :: 0, [];
    for k := 0 to |nodes|
      invariant byPath == OwnedMap(nodes[..k], paths)
      invariant problems == [] <==> AllOwned(nodes[..k], paths)
    {
      var owners := Owners(nodes[k], paths);
      byPath := Bump(byPath, owners, true);
      assert nodes[..k + 1] == nodes[..k] + [nodes[k]];
      OwnedMapPush(nodes[..k], nodes[k], paths, byPath);
      AllOwnedPush(nodes[..k], nodes[k], paths);
      if |owners| != 1 {
        problems := problems + [OwnerCount(nodes[k])];
      }
    }
    assert nodes[..|nodes|] == nodes;
  }

  lemma PassedMapPush(nodes: seq<string>, id: string, paths: seq<string>, outcomes: map<string, Outcome>,
      m: map<string, nat>)
    requires m.Keys == set p | p in paths
    requires forall p | p in paths ::
               m[p] == CountPassedOwned(nodes, paths, outcomes, p)
                       + if OwnedBy(id, paths, p) && NodePassed(outcomes, id) then 1 else 0
    ensures m == PassedMap(nodes + [id], paths, outcomes)
  {
    forall p | p in paths ensures m[p] == CountPassedOwned(nodes + [id], paths, outcomes, p) {
      PassedPush(nodes, id, paths, outcomes, p);
    }
  }

  method TallyPassed(nodes: seq<string>, paths: seq<string>, outcomes: map<string, Outcome>)
      returns (byPath: map<string, nat>)
    ensures byPath == PassedMap(nodes, paths, outcomes)
  {
    byPath := map p | p in paths :: 0;
    for k := 0 to |nodes|
      invariant byPath == PassedMap(nodes[..k], paths, outcomes)
    {
      var owners := Owners(nodes[k], paths);
      byPath := Bump(byPath, owners, NodePassed(outcomes, nodes[k]));
      assert nodes[..k + 1] == nodes[..k] + [nodes[k]];
      PassedMapPush(nodes[..k], nodes[k], paths, outcomes, byPath);
    }
    assert nodes[..|nodes|] == nodes;
  }

  method CountOutcomes(nodes: seq<string>, outcomes: map<string, Outcome>) returns (counts: Counts)
    ensures counts == Counts(|nodes|, CountOutcome(nodes, outcomes, Passed), CountOutcome(nodes, outcomes, Skipped),
                             CountOutcome(nodes, outcomes, Failed))
  {
    counts := Counts(|nodes|, 0, 0, 0);
    for k := 0 to |nodes|
      invariant counts == Counts(|nodes|, CountOutcome(nodes[..k], outcomes, Passed),
                                 CountOutcome(nodes[..k], outcomes, Skipped),
                                 CountOutcome(nodes[..k], outcomes, Failed))
    {
      assert nodes[..k + 1][..k] == nodes[..k];
      if nodes[k] in outcomes {
        match outcomes[nodes[k]]
        case Passed => counts := counts.(passed := counts.passed + 1);
        case Skipped => counts := counts.(skipped := counts.skipped + 1);
        case Failed => counts := counts.(failed := counts.failed + 1);
      }
    }
    assert nodes[..|nodes|] == nodes;
  }

  predicate PathsCovered(paths: seq<string>, expectedBy: map<string, nat>, actualBy: map<string, nat>)
    requires forall p | p in paths :: p in expectedBy && p in actualBy
  {
    forall p | p in paths :: expectedBy[p] > 0 && actualBy[p] == expectedBy[p]
  }

  method CheckPaths(paths: seq<string>, expectedBy: map<string, nat>, actualBy: map<string, nat>)
      returns (problems: seq<Problem>)
    requires forall p | p in paths :: p in expectedBy && p in actualBy
    ensures problems == [] <==> PathsCovered(paths, expectedBy, actualBy)
  {
    problems := [];
    for k := 0 to |paths|
      invariant problems == [] <==>
                forall i | 0 <= i < k :: expectedBy[paths[i]] > 0 && actualBy[paths[i]] == expectedBy[paths[i]]
    {
      var p := paths[k];
      if expectedBy[p] == 0 {
        problems := problems + [PathSelectsNothing(p)];
      }
      if actualBy[p] != expectedBy[p] {
        problems := problems + [PathNotFullyPassed(p)];
      }
    }
  }

  function CountProblems(counts: Counts): seq<Problem> {
    (if counts.skipped > 0 || counts.failed > 0 then [SkippedOrFailed] else [])
    + (if counts.passed != counts.tests then [NotAllPassed] else [])
  }

  /** The checks on identity of the two runs, before anything is counted. */
  function IdentityProblems(expected: Inventory, execution: Inventory): (problems: seq<Problem>)
    ensures problems == [] <==> Agree(expected, execution)
  {
    (if expected.collected == [] then [ZeroTests] else [])
    + (if !NoDuplicates(expected.collected) then [DuplicateIds] else [])
    + (if multiset(expected.collected) != multiset(execution.collected) then [CollectionDiffers] else [])
    + (if multiset(expected.selected) != multiset(execution.selected) then [SelectionDiffers] else [])
    + (if expected.deselected != execution.deselected then [DeselectionDiffers] else [])
    + (if execution.outcomes.Keys != (set id | id in execution.selected) then [OutcomesDoNotCover] else [])
  }

  /** Once the runs agree, the counting checks say exactly what completeness asks. */
  lemma CountsDecide(expected: Inventory, execution: Inventory, paths: seq<string>)
    requires Readable(expected) && Readable(execution) && Agree(expected, execution)
    requires forall i | 0 <= i < |expected.selected| :: OneOwner(expected.selected[i], paths)
    ensures Complete(expected, execution, paths) <==>
              && PathsCovered(paths, OwnedMap(expected.selected, paths),
                  PassedMap(execution.selected, paths, execution.outcomes))
              && CountOutcome(execution.selected, execution.outcomes, Passed) == |execution.selected|
  {
    AllPassedCounts(execution.selected, execution.outcomes);
    if forall id | id in execution.selected :: NodePassed(execution.outcomes, id) {
      forall p | p in paths
        ensures OwnedMap(expected.selected, paths)[p] > 0 <==>
                  exists id | id in expected.selected :: OwnedBy(id, paths, p)
        ensures PassedMap(execution.selected, paths, execution.outcomes)[p] == OwnedMap(expected.selected, paths)[p]
      {
        CountOwnedPositive(expected.selected, paths, p);
        PassedOwnedIsOwned(execution.selected, paths, execution.outcomes, p);
        CountOwnedMultiset(expected.selected, execution.selected, paths, p);
      }
    }
  }

  /**
   `compare_inventories`: complete exactly when both inventories are readable, name
   the same tests, every selected test has exactly one owning path and passed, and
   every requested path owns one.
   */
  method CompareInventories(expected: Inventory, execution: Inventory, paths: seq<string>)
    returns (complete: bool, expectedBy: map<string, nat>, actualBy: map<string, nat>, counts: Counts,
        problems: seq<Problem>)
    ensures complete <==> problems == []
    ensures complete <==> Complete(expected, execution, paths)
    ensures Readable(expected) && Readable(execution) ==>
              && expectedBy == OwnedMap(expected.selected, paths)
              && actualBy == PassedMap(execution.selected, paths, execution.outcomes)
              && counts.tests == |execution.selected|
              && counts.passed == CountOutcome(execution.selected, execution.outcomes, Passed)
              && counts.skipped == CountOutcome(execution.selected, execution.outcomes, Skipped)
              && counts.failed == CountOutcome(execution.selected, execution.outcomes, Failed)
  {
    var expectedErrors := ReadInventory(expected);
    var executionErrors := ReadInventory(execution);
    if expectedErrors + executionErrors != [] {
      return false, map[], map[], Counts(0, 0, 0, 0), [Unreadable];
    }
    var identityProblems := IdentityProblems(expected, execution);
    var ownerProblems;
    expectedBy, ownerProblems := TallyExpected(expected.selected, paths);
    actualBy := TallyPassed(execution.selected, paths, execution.outcomes);
    var pathProblems := CheckPaths(paths, expectedBy, actualBy);
    counts := CountOutcomes(execution.selected, execution.outcomes);
    AllPassedCounts(execution.selected, execution.outcomes);
    problems := identityProblems + ownerProblems + pathProblems + CountProblems(counts);
    complete := problems == [];
    assert complete <==>
             identityProblems == [] && ownerProblems == [] && pathProblems == [] && counts.passed == counts.tests;
    if identityProblems == [] && ownerProblems == [] {
      CountsDecide(expected, execution, paths);
    } else {
      assert !Complete(expected, execution, paths);
    }
  }

  // ----- build_manifest -----

  /** `run_passed`; the exit code, tree and commit checks are the parameter `runIsClean`. */
  predicate Certifies(runIsClean: bool, paths: seq<string>, complete: bool, problems: seq<Problem>, counts: Counts,
                      expectedBy: map<string, nat>, actualBy: map<string, nat>)
  {
    && runIsClean && complete && problems == []
    && NoDuplicates(paths)
    && expectedBy.Keys == (set p | p in paths) && actualBy.Keys == (set p | p in paths)
    && (forall p | p in expectedBy :: expectedBy[p] > 0)
    && expectedBy == actualBy
    && SumOver(paths, expectedBy) == counts.tests
    && counts.tests > 0 && counts.passed == counts.tests && counts.skipped == 0 && counts.failed == 0
  }

  /**
   A complete comparison conserves: what the collection run listed is what the execution
   run selected plus what was deselected, no path is listed twice, and the per-path counts
   of the two runs agree and add up to the tests.
   */
  lemma CompleteConserves(expected: Inventory, execution: Inventory, paths: seq<string>)
    requires Complete(expected, execution, paths)
    ensures multiset(expected.collected) == multiset(execution.selected) + multiset(execution.deselected.Keys)
    ensures multiset(execution.collected) == multiset(expected.selected) + multiset(expected.deselected.Keys)
    ensures NoDuplicates(paths)
    ensures SumOver(paths, OwnedMap(execution.selected, paths)) == |execution.selected|
    ensures OwnedMap(expected.selected, paths) == OwnedMap(execution.selected, paths)
  {
    OwnedPathsAreDistinct(expected.selected, paths);
    forall id | id in execution.selected ensures OneOwner(id, paths) {
      assert id in multiset(execution.selected);
      assert id in expected.selected;
    }
    OwnedCountsSum(execution.selected, paths);
    forall p | p in paths ensures CountOwned(expected.selected, paths, p) == CountOwned(execution.selected, paths, p) {
      CountOwnedMultiset(expected.selected, execution.selected, paths, p);
    }
  }

  /**
   The comparison and then the manifest: the run is certified exactly when it is clean,
   the comparison is complete and at least one path was requested. None of the
   manifest's own count checks can reject a complete comparison.
   */
  method Certify(runIsClean: bool, expected: Inventory, execution: Inventory, paths: seq<string>)
      returns (certified: bool)
    ensures certified <==> runIsClean && paths != [] && Complete(expected, execution, paths)
  {
    var complete, expectedBy, actualBy, counts, problems := CompareInventories(expected, execution, paths);
    certified := Certifies(runIsClean, paths, complete, problems, counts, expectedBy, actualBy);
    if complete {
      CompleteConserves(expected, execution, paths);
      AllPassedCounts(execution.selected, execution.outcomes);
      forall p | p in paths
        ensures expectedBy[p] > 0 && actualBy[p] == expectedBy[p]
      {
        CountOwnedPositive(expected.selected, paths, p);
        PassedOwnedIsOwned(execution.selected, paths, execution.outcomes, p);
      }
      SelectedIffPaths(expected, execution, paths);
    }
  }

  /** With a complete comparison, something was selected exactly if some path was requested. */
  lemma SelectedIffPaths(expected: Inventory, execution: Inventory, paths: seq<string>)
    requires Complete(expected, execution, paths)
    ensures execution.selected != [] <==> paths != []
  {
    if paths != [] {
      assert paths[0] in paths;
      var id :| id in expected.selected && OwnedBy(id, paths, paths[0]);
      assert id in multiset(expected.selected);
      assert id in execution.selected;
    }
    if execution.selected != [] {
      var id := execution.selected[0];
      assert id in multiset(execution.selected);
      assert id in expected.selected;
      var p :| OwnedBy(id, paths, p);
      assert p in Owners(id, paths);
    }
  }
}
