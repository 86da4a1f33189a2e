/**
 The two fixed points of the reachability gate: re-export chains followed to the
 module that defines a symbol, and mountedness spreading from applications.
 */
module Reachability {

  // ----- re-exports -----

  datatype Node = Node(mod: string, name: string)

  /** One `from origin import imported as bound` at module scope, the origin already absolute. */
  datatype ImportFrom = ImportFrom(origin: string, imported: string, bound: string)

  datatype ModuleInfo = ModuleInfo(defines: set<string>, imports: seq<ImportFrom>)

  /** The modules the gate can read; a module that is absent is third-party or unparsable. */
  type Tree = map<string, ModuleInfo>

  /** Where the import statements that bind the name say it comes from; unresolvable origins are skipped. */
  function Origins(imports: seq<ImportFrom>, name: string): (nodes: seq<Node>)
    ensures forall n | n in nodes :: exists i | i in imports ::
              i.bound == name && i.origin != "" && n == Node(i.origin, i.imported)
    ensures forall i | i in imports && i.bound == name && i.origin != "" :: Node(i.origin, i.imported) in nodes
  {
    if imports == [] then []
    else
      var rest := Origins(imports[1..], name);
      if imports[0].bound == name && imports[0].origin != "" then [Node(imports[0].origin, imports[0].imported)] + rest
      else rest
  }

  /** The import-from edges followed out of a node: none if the module is unreadable or defines the name itself. */
  function Edges(tree: Tree, n: Node): seq<Node> {
    if n.mod !in tree || n.name in tree[n.mod].defines then [] else Origins(tree[n.mod].imports, n.name)
  }

  /** A terminal is where the walk cannot go on. */
  predicate Terminal(tree: Tree, n: Node) {
    Edges(tree, n) == []
  }

  ghost predicate Chain(tree: Tree, path: seq<Node>) {
    path != [] && forall i | 0 <= i < |path| - 1 :: LinkedAt(tree, path, i)
  }

  predicate LinkedAt(tree: Tree, path: seq<Node>, i: int)
    requires 0 <= i < |path| - 1
  {
    path[i + 1] in Edges(tree, path[i])
  }

  ghost predicate Reaches(tree: Tree, from: Node, to: Node) {
    exists path :: Chain(tree, path) && path[0] == from && path[|path| - 1] == to
  }

  lemma ReachesSelf(tree: Tree, n: Node)
    ensures Reaches(tree, n, n)
  {
    assert Chain(tree, [n]) && [n][0] == n && [n][|[n]| - 1] == n;
  }

  lemma ReachesStep(tree: Tree, from: Node, mid: Node, to: Node)
    requires Reaches(tree, from, mid) && to in Edges(tree, mid)
    ensures Reaches(tree, from, to)
  {
    var path :| Chain(tree, path) && path[0] == from && path[|path| - 1] == mid;
    ChainPush(tree, path, to);
    var longer := path + [to];
    assert longer[0] == from && longer[|longer| - 1] == to;
  }

  lemma ChainPush(tree: Tree, path: seq<Node>, to: Node)
    requires Chain(tree, path) && to in Edges(tree, path[|path| - 1])
    ensures Chain(tree, path + [to])
  {
    var longer := path + [to];
    forall i | 0 <= i < |longer| - 1 ensures LinkedAt(tree, longer, i) {
      assert longer[i] == path[i];
      if i < |path| - 1 {
        assert LinkedAt(tree, path, i) && longer[i + 1] == path[i + 1];
      }
    }
  }

  /** A set closed under edges holds everything reachable from its members. */
  lemma {:induction false} ClosedHoldsChain(tree: Tree, closed: set<Node>, path: seq<Node>)
    requires Chain(tree, path) && path[0] in closed
    requires forall n, m | n in closed && m in Edges(tree, n) :: m in closed
    ensures path[|path| - 1] in closed
    decreases |path|
  {
    if |path| > 1 {
      assert LinkedAt(tree, path, 0);
      forall i | 0 <= i < |path[1..]| - 1 ensures LinkedAt(tree, path[1..], i) {
        assert LinkedAt(tree, path, i + 1);
      }
      ClosedHoldsChain(tree, closed, path[1..]);
    }
  }

  /** Everything the walk from `start` could ever visit: finite, so cycles cannot keep it going. */
  function Universe(tree: Tree, start: Node): set<Node> {
    {start} + set m, i | m in tree && i in tree[m].imports :: Node(i.origin, i.imported)
  }

  lemma EdgesInUniverse(tree: Tree, start: Node, n: Node, m: Node)
    requires m in Edges(tree, n)
    ensures m in Universe(tree, start)
  {
    var i :| i in tree[n.mod].imports && m == Node(i.origin, i.imported);
  }

  /** What the walk maintains: everything found is reachable, and everything followed is found. */
  ghost predicate Walk(tree: Tree, start: Node, seen: set<Node>, pending: seq<Node>) {
    && (forall n | n in seen || n in pending :: n in Universe(tree, start) && Reaches(tree, start, n))
    && (start in seen || start in pending)
    && (forall n, m | n in seen && m in Edges(tree, n) :: m in seen || m in pending)
  }

  lemma WalkVisit(tree: Tree, start: Node, seen: set<Node>, rest: seq<Node>, current: Node)
    requires Walk(tree, start, seen, rest + [current])
    ensures Walk(tree, start, seen + {current}, rest + Edges(tree, current))
  {
    assert current in rest + [current];
    forall m | m in Edges(tree, current) ensures m in Universe(tree, start) && Reaches(tree, start, m) {
      EdgesInUniverse(tree, start, current, m);
      ReachesStep(tree, start, current, m);
    }
    forall n | n in rest ensures n in rest + [current] {}
    forall n, m | n in seen + {current} && m in Edges(tree, n)
      ensures m in seen + {current} || m in rest + Edges(tree, current)
    {
      if n in seen {
        assert m in seen || m in rest + [current];
      }
    }
  }

  lemma WalkSkip(tree: Tree, start: Node, seen: set<Node>, rest: seq<Node>, current: Node)
    requires Walk(tree, start, seen, rest + [current]) && current in seen
    ensures Walk(tree, start, seen, rest)
  {
    forall n | n in rest ensures n in rest + [current] {}
    forall n, m | n in seen && m in Edges(tree, n) ensures m in seen || m in rest {
      assert m in seen || m in rest + [current];
    }
  }

  lemma OriginsPush(imports: seq<ImportFrom>, i: ImportFrom, name: string)
    ensures Origins(imports + [i], name) ==
            Origins(imports, name) + if i.bound == name && i.origin != "" then [Node(i.origin, i.imported)] else []
  {
    if imports == [] {
      assert imports + [i] == [i];
    } else {
      assert (imports + [i])[1..] == imports[1..] + [i];
      OriginsPush(imports[1..], i, name);
    }
  }

  /** The part of the walk that reads one module: where the name is followed to, nothing if it ends here. */
  method FollowImports(tree: Tree, current: Node) returns (next: seq<Node>)
    ensures next == Edges(tree, current)
  {
    next := [];
    if current.mod !in tree {
      return;
    }
    var info := tree[current.mod];
    if current.name in info.defines {
      return;
    }
    for k := 0 to |info.imports|
      invariant next == Origins(info.imports[..k], current.name)
    {
      OriginsPush(info.imports[..k], info.imports[k], current.name);
      assert info.imports[..k + 1] == info.imports[..k] + [info.imports[k]];
      var stmt := info.imports[k];
      if stmt.bound == current.name && stmt.origin != "" {
        next := next + [Node(stmt.origin, stmt.imported)];
      }
    }
    assert info.imports[..|info.imports|] == info.imports;
  }

  /** `_export_terminals`: the worklist walk returns exactly the terminals reachable along import-from edges. */
  method ExportTerminals(tree: Tree, start: Node) returns (terminals: set<Node>)
    ensures forall n :: n in terminals <==> Reaches(tree, start, n) && Terminal(tree, n)
  {
    terminals := {};
    var seen: set<Node> := {};
    var pending := [start];
    ReachesSelf(tree, start);
    while pending != []
      invariant Walk(tree, start, seen, pending)
      invariant forall n :: n in terminals <==> n in seen && Terminal(tree, n)
      decreases Universe(tree, start) - seen, |pending|
    {
      var current := pending[|pending| - 1];
      var rest := pending[..|pending| - 1];
      assert pending == rest + [current];
      if current in seen {
        WalkSkip(tree, start, seen, rest, current);
        pending := rest;
      } else {
        WalkVisit(tree, start, seen, rest, current);
        assert current in pending;
        seen := seen + {current};
        var next := FollowImports(tree, current);
        pending := rest + next;
        if next == [] {
          terminals := terminals + {current};
        }
      }
    }
    forall n | Reaches(tree, start, n) ensures n in seen {
      var path :| Chain(tree, path) && path[0] == start && path[|path| - 1] == n;
      ClosedHoldsChain(tree, seen, path);
    }
  }

  /** The same set as a function, for stating what `_canonical` does with it. */
  ghost function Terminals(tree: Tree, start: Node): (t: set<Node>)
    ensures forall n :: n in t <==> Reaches(tree, start, n) && Terminal(tree, n)
  {
    forall n | Reaches(tree, start, n) ensures n in Universe(tree, start) { ReachedInUniverse(tree, start, n); }
    set n | n in Universe(tree, start) && Reaches(tree, start, n) && Terminal(tree, n)
  }

  lemma ReachedInUniverse(tree: Tree, start: Node, n: Node)
    requires Reaches(tree, start, n)
    ensures n in Universe(tree, start)
  {
    var path :| Chain(tree, path) && path[0] == start && path[|path| - 1] == n;
    if |path| > 1 {
      assert LinkedAt(tree, path, |path| - 2);
      EdgesInUniverse(tree, start, path[|path| - 2], n);
    }
  }

  // ----- identities -----

  /** `<module>:<name>`. */
  function Identity(n: Node): string {
    n.mod + ":" + n.name
  }

  /** `identity.partition(":")`, at the first colon; without one the name is empty. */
  function Parse(identity: string): Node {
    if identity == [] then Node([], [])
    else if identity[0] == ':' then Node([], identity[1..])
    else var rest := Parse(identity[1..]); Node([identity[0]] + rest.mod, rest.name)
  }

  lemma {:induction false} ParseIdentity(n: Node)
    requires ':' !in n.mod
    ensures Parse(Identity(n)) == n
    decreases |n.mod|
  {
    if n.mod == [] {
      assert Identity(n)[0] == ':' && Identity(n)[1..] == n.name;
    } else {
      var tail := Node(n.mod[1..], n.name);
      assert Identity(n)[1..] == Identity(tail);
      ParseIdentity(tail);
      assert [n.mod[0]] + n.mod[1..] == n.mod;
    }
  }

  lemma {:induction false} ParseHasNoColon(identity: string)
    ensures ':' !in Parse(identity).mod
  {
    if identity != [] {
      ParseHasNoColon(identity[1..]);
    }
  }

  /** Module names never contain a colon. */
  predicate NamesOk(tree: Tree) {
    forall m | m in tree :: forall i | i in tree[m].imports :: ':' !in i.origin
  }

  /** `_canonical`: the one terminal, when there is exactly one. */
  ghost function Canonical(tree: Tree, identity: string): string {
    var t := Terminals(tree, Parse(identity));
    if |t| == 1 then (var n :| n in t; Identity(n)) else identity
  }

  /** From a terminal the walk finds that terminal and nothing else. */
  lemma TerminalsOfTerminal(tree: Tree, n: Node)
    requires Terminal(tree, n)
    ensures Terminals(tree, n) == {n}
  {
    ReachesSelf(tree, n);
    forall m | Reaches(tree, n, m) ensures m == n {
      var path :| Chain(tree, path) && path[0] == n && path[|path| - 1] == m;
      if |path| > 1 {
        LongChainLeaves(tree, path);
      }
    }
  }

  lemma LongChainLeaves(tree: Tree, path: seq<Node>)
    requires Chain(tree, path) && |path| > 1
    ensures !Terminal(tree, path[0])
  {
    assert LinkedAt(tree, path, 0);
  }

  lemma ReachedModuleHasNoColon(tree: Tree, start: Node, n: Node)
    requires NamesOk(tree) && ':' !in start.mod && Reaches(tree, start, n)
    ensures ':' !in n.mod
  {
    ReachedInUniverse(tree, start, n);
  }

  lemma SingletonChoice(t: set<Node>, n: Node)
    requires |t| == 1 && n in t
    ensures t == {n}
  {
    if exists m :: m in t && m != n {
      var m :| m in t && m != n;
      assert |{n, m}| == 2 && {n, m} <= t;
      SubsetSize({n, m}, t);
    }
  }

  lemma {:induction false} SubsetSize(a: set<Node>, b: set<Node>)
    requires a <= b
    ensures |a| <= |b|
  {
    if a != {} {
      var x :| x in a;
      SubsetSize(a - {x}, b - {x});
    }
  }

  /**
   An identity is reduced to the one definition that its re-exports lead to, and left
   as it is if they lead to none or to several.
   */
  lemma CanonicalMeans(tree: Tree, identity: string, n: Node)
    ensures Terminals(tree, Parse(identity)) == {n} ==> Canonical(tree, identity) == Identity(n)
    ensures (forall m :: Terminals(tree, Parse(identity)) != {m}) ==> Canonical(tree, identity) == identity
  {
    var t := Terminals(tree, Parse(identity));
    if t == {n} {
      assert forall m | m in t :: m == n;
    }
    if |t| == 1 {
      var m :| m in t;
      SingletonChoice(t, m);
    }
  }

  /** `_canonical`. */
  method CanonicalIdentity(tree: Tree, identity: string) returns (r: string)
    ensures r == Canonical(tree, identity)
  {
    var start := Parse(identity);
    var terminals := ExportTerminals(tree, start);
    assert terminals == Terminals(tree, start);
    if |terminals| == 1 {
      var n :| n in terminals;
      SingletonChoice(terminals, n);
      CanonicalMeans(tree, identity, n);
      return Identity(n);
    }
    return identity;
  }

  /** Reducing an identity twice is reducing it once, cyclic re-exports included. */
  lemma CanonicalIdempotent(tree: Tree, identity: string)
    requires NamesOk(tree)
    ensures Canonical(tree, Canonical(tree, identity)) == Canonical(tree, identity)
  {
    var start := Parse(identity);
    var t := Terminals(tree, start);
    if |t| == 1 {
      var n :| n in t;
      SingletonChoice(t, n);
      assert Canonical(tree, identity) == Identity(n);
      ParseHasNoColon(identity);
      ReachedModuleHasNoColon(tree, start, n);
      ParseIdentity(n);
      TerminalsOfTerminal(tree, n);
      assert |{n}| == 1;
    }
  }

  // ----- mounts -----

  datatype Owner = NoOwner | OwnedBy(id: string)

  /** One `owner.include_router(target)`; `fromApp` says the owner is an application object. */
  datatype Mount = Mount(owner: Owner, fromApp: bool, target: string)

  /** A chain of mounts, each owned by the target of the one before, the first owned by an application. */
  ghost predicate MountChain(edges: seq<Mount>, chain: seq<Mount>) {
    && chain != [] && chain[0].fromApp
    && (forall i | 0 <= i < |chain| :: chain[i] in edges)
    && (forall i | 0 <= i < |chain| - 1 :: FeedsAt(chain, i))
  }

  predicate FeedsAt(chain: seq<Mount>, i: int)
    requires 0 <= i < |chain| - 1
  {
    chain[i + 1].owner == OwnedBy(chain[i].target)
  }

  ghost predicate Mounted(edges: seq<Mount>, target: string) {
    exists chain: seq<Mount> :: MountChain(edges, chain) && chain[|chain| - 1].target == target
  }

  lemma AppMountIsMounted(edges: seq<Mount>, e: Mount)
    requires e in edges && e.fromApp
    ensures Mounted(edges, e.target)
  {
    assert MountChain(edges, [e]) && [e][|[e]| - 1].target == e.target;
  }

  lemma MountExtends(edges: seq<Mount>, e: Mount)
    requires e in edges && e.owner.OwnedBy? && Mounted(edges, e.owner.id)
    ensures Mounted(edges, e.target)
  {
    var chain: seq<Mount> :| MountChain(edges, chain) && chain[|chain| - 1].target == e.owner.id;
    var longer := chain + [e];
    forall i | 0 <= i < |longer| - 1 ensures FeedsAt(longer, i) {
      assert i < |chain| - 1 ==> FeedsAt(chain, i);
    }
    assert MountChain(edges, longer) && longer[|longer| - 1].target == e.target;
  }

  lemma ChainPrefix(edges: seq<Mount>, chain: seq<Mount>)
    requires MountChain(edges, chain) && |chain| > 1
    ensures MountChain(edges, chain[..|chain| - 1])
  {
    var init := chain[..|chain| - 1];
    forall i | 0 <= i < |init| - 1 ensures FeedsAt(init, i) {
      assert FeedsAt(chain, i);
    }
  }

  lemma {:induction false} ClosedHoldsMounts(edges: seq<Mount>, mounted: set<string>, chain: seq<Mount>)
    requires MountChain(edges, chain)
    requires AppTargets(edges) <= mounted
    requires Settled(edges, |edges|, mounted)
    ensures chain[|chain| - 1].target in mounted
    decreases |chain|
  {
    var last := |chain| - 1;
    if last > 0 {
      var init := chain[..last];
      ChainPrefix(edges, chain);
      ClosedHoldsMounts(edges, mounted, init);
      assert FeedsAt(chain, last - 1);
    }
    assert chain[last] in edges;
  }

  /** The first `k` mounts spread nothing further. */
  predicate Settled(edges: seq<Mount>, k: nat, mounted: set<string>)
    requires k <= |edges|
  {
    forall j | 0 <= j < k && edges[j].owner.OwnedBy? && edges[j].owner.id in mounted :: edges[j].target in mounted
  }

  function Targets(edges: seq<Mount>): set<string> {
    set e | e in edges :: e.target
  }

  function AppTargets(edges: seq<Mount>): set<string> {
    set e | e in edges && e.fromApp :: e.target
  }

  /** The answer as a set. */
  ghost function Reachable(edges: seq<Mount>): set<string> {
    set t | t in Targets(edges) && Mounted(edges, t)
  }

  lemma ReachableIsClosed(edges: seq<Mount>)
    ensures AppTargets(edges) <= Reachable(edges) && Settled(edges, |edges|, Reachable(edges))
  {
    forall e | e in edges && e.fromApp ensures e.target in Reachable(edges) {
      AppMountIsMounted(edges, e);
    }
    forall j | 0 <= j < |edges| && edges[j].owner.OwnedBy? && edges[j].owner.id in Reachable(edges)
      ensures edges[j].target in Reachable(edges)
    {
      MountExtends(edges, edges[j]);
    }
  }

  /** One sweep over the mounts; it never leaves a set that is closed under mounting. */
  method Sweep(edges: seq<Mount>, before: set<string>, ghost bound: set<string>)
      returns (mounted: set<string>, changed: bool)
    requires before <= bound && Settled(edges, |edges|, bound)
    ensures before <= mounted <= bound && (if changed then before < mounted else before == mounted)
    ensures !changed ==> Settled(edges, |edges|, mounted)
  {
    mounted, changed := before, false;
    for k := 0 to |edges|
      invariant before <= mounted <= bound && (if changed then before < mounted else before == mounted)
      invariant !changed ==> Settled(edges, k, mounted)
    {
      var e := edges[k];
      if e.target !in mounted && e.owner.OwnedBy? && e.owner.id in mounted {
        mounted := mounted + {e.target};
        changed := true;
      }
    }
  }

  /** The closure loop of `_mounted_routers`: exactly the routers on a mount chain that starts at an application. */
  method MountedRouters(edges: seq<Mount>) returns (mounted: set<string>)
    ensures forall r :: r in mounted <==> Mounted(edges, r)
  {
    ghost var bound := Reachable(edges);
    ReachableIsClosed(edges);
    mounted := AppTargets(edges);
    var changed := true;
    while changed
      invariant AppTargets(edges) <= mounted <= bound
      invariant !changed ==> Settled(edges, |edges|, mounted)
      decreases bound - mounted, changed
    {
      mounted, changed := Sweep(edges, mounted, bound);
    }
    forall r | Mounted(edges, r) ensures r in mounted {
      var chain: seq<Mount> :| MountChain(edges, chain) && chain[|chain| - 1].target == r;
      ClosedHoldsMounts(edges, mounted, chain);
    }
  }

  /** A group of aggregators that no application and no outside router mounts contributes nothing. */
  lemma {:induction false} UnservedGroupIsUnmounted(edges: seq<Mount>, group: set<string>, chain: seq<Mount>)
    requires MountChain(edges, chain)
    requires forall e | e in edges && e.target in group :: !e.fromApp && e.owner.OwnedBy? && e.owner.id in group
    ensures chain[|chain| - 1].target !in group
    decreases |chain|
  {
    var last := |chain| - 1;
    assert chain[last] in edges;
    if last > 0 {
      ChainPrefix(edges, chain);
      UnservedGroupIsUnmounted(edges, group, chain[..last]);
      assert FeedsAt(chain, last - 1);
    }
  }

  lemma UnservedGroupContributesNothing(edges: seq<Mount>, group: set<string>, router: string)
    requires forall e | e in edges && e.target in group :: !e.fromApp && e.owner.OwnedBy? && e.owner.id in group
    ensures router in group ==> !Mounted(edges, router)
  {
    forall chain: seq<Mount> | MountChain(edges, chain) ensures chain[|chain| - 1].target !in group {
      UnservedGroupIsUnmounted(edges, group, chain);
    }
  }
}
