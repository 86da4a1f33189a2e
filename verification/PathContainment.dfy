/**
 Containment by inode ancestry on a fixed filesystem snapshot. Paths are component
 sequences below "/"; the snapshot answers lstat, stat and realpath.
 */
module PathContainment {

  type Path = seq<string>

  datatype Option<+T> = None | Some(value: T)

  datatype Inode = Inode(id: nat, directory: bool)

  /** `Missing` is FileNotFoundError or NotADirectoryError; `Unreadable` every other error. */
  datatype Lookup = Present | Missing | Unreadable

  /** A path as given, after `~` expansion, split at "/" and not yet normalized. */
  datatype Text = Text(absolute: bool, parts: seq<string>)

  /** `stat` is asked with the components as written: the kernel, not the text, resolves "..". */
  datatype Fs = Fs(
    lstat: Path -> Lookup,
    stat: seq<string> -> Option<Inode>,
    realpath: Path -> Option<Path>,
    cwd: Path)

  // ----- lexical paths -----

  function Parent(p: Path): Path
    requires p != []
  {
    p[..|p| - 1]
  }

  function Base(p: Path): string
    requires p != []
  {
    p[|p| - 1]
  }

  /** Lexical normalization: empty and "." components vanish, ".." removes the one before it. */
  function Normal(parts: seq<string>): Path {
    if parts == [] then []
    else
      var init := Normal(parts[..|parts| - 1]);
      var last := parts[|parts| - 1];
      if last == "" || last == "." then init
      else if last == ".." then (if init == [] then [] else Parent(init))
      else init + [last]
  }

  function Abspath(fs: Fs, t: Text): Path {
    Normal(if t.absolute then t.parts else fs.cwd + t.parts)
  }

  /** A normalized path written back as text. */
  function AsText(p: Path): Text {
    Text(true, p)
  }

  predicate Clean(parts: seq<string>) {
    "" !in parts && "." !in parts && ".." !in parts
  }

  lemma {:induction false} NormalIsClean(parts: seq<string>)
    ensures Clean(Normal(parts))
    ensures Clean(parts) ==> Normal(parts) == parts
  {
    if parts != [] {
      NormalIsClean(parts[..|parts| - 1]);
      assert parts == parts[..|parts| - 1] + [parts[|parts| - 1]];
    }
  }

  /** What comes after is normalized on top of what came before. */
  lemma {:induction false} NormalAfter(a: seq<string>, a': seq<string>, b: seq<string>)
    requires Normal(a) == Normal(a')
    ensures Normal(a + b) == Normal(a' + b)
    decreases |b|
  {
    if b == [] {
      assert a + b == a && a' + b == a';
    } else {
      var init := b[..|b| - 1];
      NormalAfter(a, a', init);
      assert (a + b)[..|a + b| - 1] == a + init && (a' + b)[..|a' + b| - 1] == a' + init;
    }
  }

  lemma NormalLast(a: seq<string>, x: string)
    ensures Normal(a + [x]) ==
            if x == "" || x == "." then Normal(a)
            else if x == ".." then (if Normal(a) == [] then [] else Parent(Normal(a))) else Normal(a) + [x]
  {
    assert (a + [x])[..|a|] == a;
  }

  /** A component followed by ".." is a detour: wherever it stands, it can be left out. */
  lemma DetourVanishes(a: seq<string>, x: string, b: seq<string>)
    requires Clean([x])
    ensures Normal(a + [x, ".."] + b) == Normal(a + b)
  {
    assert x in [x];
    NormalLast(a, x);
    NormalLast(a + [x], "..");
    assert a + [x] + [".."] == a + [x, ".."];
    NormalAfter(a + [x, ".."], a, b);
  }

  /** ".." at the top stays at the top, and "." and empty components mean nothing anywhere. */
  lemma NothingVanishes(a: seq<string>, b: seq<string>)
    ensures Normal([".."] + b) == Normal(b)
    ensures Normal(a + ["."] + b) == Normal(a + b) && Normal(a + [""] + b) == Normal(a + b)
  {
    NormalLast([], "..");
    assert [] + [".."] == [".."] && [] + b == b;
    NormalAfter([".."], [], b);
    NormalLast(a, ".");
    NormalAfter(a + ["."], a, b);
    NormalLast(a, "");
    NormalAfter(a + [""], a, b);
  }

  /** A relative text is read from the working directory. */
  lemma RelativeText(fs: Fs, parts: seq<string>)
    requires Clean(fs.cwd) && Clean(parts)
    ensures Abspath(fs, Text(false, parts)) == fs.cwd + parts && Abspath(fs, Text(true, parts)) == parts
  {
    assert Clean(fs.cwd + parts);
    NormalIsClean(fs.cwd + parts);
    NormalIsClean(parts);
  }

  lemma CleanPrefix(p: Path, q: Path)
    requires q <= p && Clean(p)
    ensures Clean(q)
  {
    assert forall x | x in q :: x in p;
  }

  // ----- what a snapshot satisfies -----

  predicate Canonical(fs: Fs, p: Path) {
    fs.realpath(p) == Some(p)
  }

  ghost predicate ValidFs(fs: Fs) {
    && Clean(fs.cwd) && fs.stat([]).Some? && fs.stat([]).value.directory
    && (forall p :: StatsWell(fs, p))
    && (forall p :: ResolvesWell(fs, p))
    && (forall p :: DirectoriesAbove(fs, p))
    && (forall p, q :: OnePlace(fs, p, q))
  }

  /** Whatever can be statted exists, and resolving it leads to the same inode. */
  predicate StatsWell(fs: Fs, p: Path) {
    Clean(p) && fs.stat(p).Some? ==>
      fs.lstat(p).Present? && fs.realpath(p).Some? && fs.stat(fs.realpath(p).value) == fs.stat(p)
  }

  /**
   A resolved path is canonical all the way, and an entry missing below the path is missing
   below the resolved one.
   */
  ghost predicate ResolvesWell(fs: Fs, p: Path) {
    fs.realpath(p).Some? ==>
      && Clean(fs.realpath(p).value) && AllCanonical(fs, fs.realpath(p).value)
      && forall x | Clean([x]) && fs.lstat(p + [x]).Missing? :: fs.stat(fs.realpath(p).value + [x]).None?
  }

  predicate DirectoriesAbove(fs: Fs, p: Path) {
    Canonical(fs, p) && fs.stat(p).Some? ==> AncestorsAreDirectories(fs, p)
  }

  /** A directory has one canonical path. */
  predicate OnePlace(fs: Fs, p: Path, q: Path) {
    SameDirectory(fs, p, q) && Canonical(fs, p) && Canonical(fs, q) ==> p == q
  }

  predicate AllCanonical(fs: Fs, p: Path) {
    forall k | 0 <= k <= |p| :: Canonical(fs, p[..k])
  }

  predicate AncestorsAreDirectories(fs: Fs, p: Path) {
    forall k | 0 <= k < |p| :: fs.stat(p[..k]).Some? && fs.stat(p[..k]).value.directory
  }

  predicate SameDirectory(fs: Fs, p: Path, q: Path) {
    fs.stat(p).Some? && fs.stat(p).value.directory && fs.stat(p) == fs.stat(q)
  }

  // ----- the two upward walks, as functions -----

  /** Nearest existing ancestor of a normalized path, the path itself included. */
  function Nearest(fs: Fs, p: Path): (r: Option<Path>)
    ensures r.Some? ==> r.value <= p && fs.lstat(r.value).Present?
  {
    match fs.lstat(p)
    case Present => Some(p)
    case Unreadable => None
    case Missing => if p == [] then None else Nearest(fs, Parent(p))
  }

  /** The candidate's canonical location: a resolved existing ancestor plus the components that do not exist yet. */
  datatype Location = Location(anchor: Path, missing: seq<string>)

  function Locate(fs: Fs, p: Path): (r: Option<Location>) {
    match Nearest(fs, p)
    case None => None
    case Some(near) =>
      match fs.realpath(near)
      case None => None
      case Some(resolved) => Some(Location(resolved, p[|near|..]))
  }

  datatype Decision = Unknown | Outside | Inside(parts: seq<string>)

  /** Looks for `inode` at `node` and then at its parents; the parts are those below the hit. */
  function WalkUp(fs: Fs, node: Path, inode: Inode): Decision {
    match fs.stat(node)
    case None => Unknown
    case Some(here) =>
      if here == inode then Inside([])
      else if node == [] then Outside
      else
        match WalkUp(fs, Parent(node), inode)
        case Inside(parts) => Inside(parts + [Base(node)])
        case other => other
  }

  function Extend(d: Decision, more: seq<string>): Decision {
    if d.Inside? then Inside(d.parts + more) else d
  }

  function Decide(fs: Fs, candidate: Text, root: Text): Decision {
    if !candidate.absolute || !root.absolute || fs.stat(root.parts).None? then Unknown
    else
      match Locate(fs, Abspath(fs, candidate))
      case None => Unknown
      case Some(loc) => Extend(WalkUp(fs, loc.anchor, fs.stat(root.parts).value), loc.missing)
  }

  function DecideAnchored(fs: Fs, candidate: Text, root: Text): Decision {
    match Nearest(fs, Abspath(fs, root))
    case None => Unknown
    case Some(anchor) =>
      var rd := Decide(fs, root, AsText(anchor));
      var cd := Decide(fs, candidate, AsText(anchor));
      if !rd.Inside? || cd.Unknown? then Unknown
      else if cd.Outside? || !(rd.parts <= cd.parts) then Outside
      else Inside(cd.parts[|rd.parts|..])
  }

  /** `inode_paths_equal`: None is "identity is unknown". */
  function PathsEqual(fs: Fs, candidate: Text, reference: Text): Option<bool> {
    match Nearest(fs, Abspath(fs, reference))
    case None => None
    case Some(anchor) =>
      var rd := Decide(fs, reference, AsText(anchor));
      var cd := Decide(fs, candidate, AsText(anchor));
      if !rd.Inside? || cd.Unknown? then None
      else Some(cd == rd)
  }

  // ----- the code -----

  /** `_nearest_existing`. */
  method NearestExisting(fs: Fs, path: Text) returns (r: Option<Path>)
    ensures r == Nearest(fs, Abspath(fs, path))
  {
    var node := Abspath(fs, path);
    while true
      invariant Nearest(fs, Abspath(fs, path)) == Nearest(fs, node)
      decreases |node|
    {
      match fs.lstat(node)
      case Present => return Some(node);
      case Unreadable => return None;
      case Missing =>
        if node == [] {
          return None;
        }
        node := Parent(node);
    }
  }

  function Reversed(s: seq<string>): seq<string> {
    if s == [] then [] else [s[|s| - 1]] + Reversed(s[..|s| - 1])
  }

  lemma ReversedPush(s: seq<string>, x: string)
    ensures Reversed(s + [x]) == [x] + Reversed(s)
  {
    assert (s + [x])[..|s|] == s;
  }

  /** The second loop of the decision: compare inodes on the way up, remembering what was passed. */
  method AncestorWalk(fs: Fs, start: Path, inode: Inode) returns (d: Decision)
    ensures d == WalkUp(fs, start, inode)
  {
    var node, below := start, [];
    while true
      invariant Extend(WalkUp(fs, node, inode), Reversed(below)) == WalkUp(fs, start, inode)
      decreases |node|
    {
      var here := fs.stat(node);
      if here.None? {
        return Unknown;
      }
      if here.value == inode {
        return Inside(Reversed(below));
      }
      if node == [] {
        return Outside;
      }
      ReversedPush(below, Base(node));
      ghost var up := WalkUp(fs, Parent(node), inode);
      assert up.Inside? ==> (up.parts + [Base(node)]) + Reversed(below) == up.parts + ([Base(node)] + Reversed(below));
      below := below + [Base(node)];
      node := Parent(node);
    }
  }

  /** `_inode_relative_parts_decision`: find the nearest existing ancestor, resolve it, then walk up. */
  method RelativePartsDecision(fs: Fs, candidate: Text, root: Text) returns (d: Decision)
    ensures d == Decide(fs, candidate, root)
  {
    if !candidate.absolute || !root.absolute {
      return Unknown;
    }
    var rootStat := fs.stat(root.parts);
    if rootStat.None? {
      return Unknown;
    }
    var start := Abspath(fs, candidate);
    var node, missing := start, [];
    while fs.lstat(node) != Present
      invariant Nearest(fs, start) == Nearest(fs, node)
      invariant node <= start && Reversed(missing) == start[|node|..]
      decreases |node|
    {
      if fs.lstat(node).Unreadable? || node == [] {
        return Unknown;
      }
      ReversedPush(missing, Base(node));
      missing := missing + [Base(node)];
      node := Parent(node);
    }
    var resolved := fs.realpath(node);
    if resolved.None? {
      return Unknown;
    }
    d := AncestorWalk(fs, resolved.value, rootStat.value);
    if d.Inside? {
      d := Inside(d.parts + Reversed(missing));
    }
  }

  // ----- what the decisions mean -----

  /** The ancestor of length `k` has the inode, and none below it does. */
  predicate HitAt(fs: Fs, node: Path, inode: Inode, k: nat) {
    && k <= |node| && fs.stat(node[..k]) == Some(inode)
    && forall j | k < j <= |node| :: fs.stat(node[..j]).Some? && fs.stat(node[..j]).value != inode
  }

  predicate NoHit(fs: Fs, node: Path, inode: Inode) {
    forall j | 0 <= j <= |node| :: fs.stat(node[..j]).Some? && fs.stat(node[..j]).value != inode
  }

  /** The walk says "inside by these parts" exactly for the lowest ancestor with the inode. */
  lemma {:induction false} WalkUpInside(fs: Fs, node: Path, inode: Inode, k: nat)
    requires k <= |node|
    ensures WalkUp(fs, node, inode) == Inside(node[k..]) <==> HitAt(fs, node, inode, k)
  {
    assert node[..|node|] == node && node[|node|..] == [];
    if fs.stat(node).Some? && fs.stat(node).value != inode && node != [] && k < |node| {
      var up := Parent(node);
      WalkUpInside(fs, up, inode, k);
      assert node[k..] == up[k..] + [Base(node)];
      assert forall j | 0 <= j < |node| :: up[..j] == node[..j];
      var d := WalkUp(fs, up, inode);
      assert d.Inside? && d.parts + [Base(node)] == node[k..] ==> d.parts == up[k..];
    }
  }

  lemma {:induction false} WalkUpOutside(fs: Fs, node: Path, inode: Inode)
    ensures WalkUp(fs, node, inode) == Outside <==> NoHit(fs, node, inode)
  {
    assert node[..|node|] == node;
    if fs.stat(node).Some? && fs.stat(node).value != inode && node != [] {
      WalkUpOutside(fs, Parent(node), inode);
      assert forall j | 0 <= j < |node| :: Parent(node)[..j] == node[..j];
    }
  }

  lemma {:induction false} WalkUpParts(fs: Fs, node: Path, inode: Inode)
    ensures var d := WalkUp(fs, node, inode); d.Inside? ==> |d.parts| <= |node| && d.parts == node[|node| - |d.parts|..]
  {
    if fs.stat(node).Some? && fs.stat(node).value != inode && node != [] {
      WalkUpParts(fs, Parent(node), inode);
    }
  }

  function FullPath(loc: Location): Path {
    loc.anchor + loc.missing
  }

  /**
   A positive decision: the candidate's canonical location is reached from its lowest
   ancestor with the root's inode by exactly the returned parts.
   */
  lemma InsideMeans(fs: Fs, candidate: Text, root: Text)
    requires Decide(fs, candidate, root).Inside?
    ensures fs.stat(root.parts).Some? && Locate(fs, Abspath(fs, candidate)).Some?
    ensures var loc := Locate(fs, Abspath(fs, candidate)).value;
            var k := |FullPath(loc)| - |Decide(fs, candidate, root).parts|;
            && 0 <= k <= |loc.anchor| && HitAt(fs, loc.anchor, fs.stat(root.parts).value, k)
            && Decide(fs, candidate, root).parts == FullPath(loc)[k..]
  {
    var loc := Locate(fs, Abspath(fs, candidate)).value;
    var inode := fs.stat(root.parts).value;
    var d := WalkUp(fs, loc.anchor, inode);
    WalkUpParts(fs, loc.anchor, inode);
    var k := |loc.anchor| - |d.parts|;
    WalkUpInside(fs, loc.anchor, inode, k);
    assert FullPath(loc)[k..] == loc.anchor[k..] + loc.missing;
  }

  /** The same with the location and the hit named. */
  lemma InsideHit(fs: Fs, candidate: Text, root: Text) returns (loc: Location, k: nat)
    requires Decide(fs, candidate, root).Inside?
    ensures candidate.absolute && root.absolute && fs.stat(root.parts).Some?
    ensures Locate(fs, Abspath(fs, candidate)) == Some(loc) && k <= |loc.anchor|
    ensures HitAt(fs, loc.anchor, fs.stat(root.parts).value, k)
    ensures Decide(fs, candidate, root).parts == loc.anchor[k..] + loc.missing
  {
    InsideMeans(fs, candidate, root);
    loc := Locate(fs, Abspath(fs, candidate)).value;
    k := |FullPath(loc)| - |Decide(fs, candidate, root).parts|;
    assert FullPath(loc)[k..] == loc.anchor[k..] + loc.missing;
  }

  /** A negative decision: every ancestor of the canonical location was seen, and none has the root's inode. */
  lemma OutsideMeans(fs: Fs, candidate: Text, root: Text)
    ensures Decide(fs, candidate, root).Outside? <==>
              && candidate.absolute && root.absolute && fs.stat(root.parts).Some?
              && Locate(fs, Abspath(fs, candidate)).Some?
              && NoHit(fs, Locate(fs, Abspath(fs, candidate)).value.anchor, fs.stat(root.parts).value)
  {
    if candidate.absolute && root.absolute && fs.stat(root.parts).Some? && Locate(fs, Abspath(fs, candidate)).Some? {
      WalkUpOutside(fs, Locate(fs, Abspath(fs, candidate)).value.anchor, fs.stat(root.parts).value);
    }
  }

  /**
   No decision depends on detours in the candidate's text: "/srv/root/../secret" is
   decided as "/srv/secret".
   */
  lemma DetourDecidesAlike(fs: Fs, a: seq<string>, x: string, b: seq<string>, root: Text)
    requires Clean([x])
    ensures var there, straight := Text(true, a + [x, ".."] + b), Text(true, a + b);
            && Decide(fs, there, root) == Decide(fs, straight, root)
            && DecideAnchored(fs, there, root) == DecideAnchored(fs, straight, root)
            && PathsEqual(fs, there, root) == PathsEqual(fs, straight, root)
  {
    DetourVanishes(a, x, b);
  }

  /** The path that a text with a detour names. */
  lemma DetourNames(fs: Fs, a: seq<string>, x: string, b: seq<string>)
    requires Clean(a) && Clean([x]) && Clean(b)
    ensures Abspath(fs, Text(true, a + [x, ".."] + b)) == a + b
  {
    DetourVanishes(a, x, b);
    assert Clean(a + b);
    NormalIsClean(a + b);
  }

  // ----- composition -----

  lemma ResolvedIsCanonical(fs: Fs, p: Path, k: nat)
    requires ValidFs(fs) && fs.realpath(p).Some? && k <= |fs.realpath(p).value|
    ensures Clean(fs.realpath(p).value) && Canonical(fs, fs.realpath(p).value[..k])
  {
    assert ResolvesWell(fs, p);
  }

  /** A statted path is its own anchor, and is found at its resolved place without walking. */
  lemma StattedIsAnchor(fs: Fs, p: Path)
    requires ValidFs(fs) && Clean(p) && fs.stat(p).Some?
    ensures Nearest(fs, p) == Some(p) && fs.realpath(p).Some?
    ensures Locate(fs, p) == Some(Location(fs.realpath(p).value, []))
    ensures fs.stat(fs.realpath(p).value) == fs.stat(p) && Canonical(fs, fs.realpath(p).value)
    ensures WalkUp(fs, fs.realpath(p).value, fs.stat(p).value) == Inside([])
  {
    assert StatsWell(fs, p);
    assert p[|p|..] == [];
    var r := fs.realpath(p).value;
    ResolvedIsCanonical(fs, p, |r|);
    assert r[..|r|] == r;
  }

  /** The text means the same to the kernel and to lexical normalization. */
  predicate Honest(fs: Fs, t: Text) {
    fs.stat(t.parts) == fs.stat(Abspath(fs, t))
  }

  lemma LocateAnchor(fs: Fs, p: Path)
    requires ValidFs(fs) && Locate(fs, p).Some?
    ensures Nearest(fs, p).Some? && fs.realpath(Nearest(fs, p).value) == Some(Locate(fs, p).value.anchor)
    ensures AllCanonical(fs, Locate(fs, p).value.anchor)
  {
    assert ResolvesWell(fs, Nearest(fs, p).value);
  }

  /** Everything above an existing canonical path is an existing directory. */
  lemma AncestorIsDirectory(fs: Fs, r: Path, k: nat)
    requires ValidFs(fs) && Canonical(fs, r) && fs.stat(r).Some? && k <= |r|
    ensures fs.stat(r[..k]).Some? && (k < |r| ==> fs.stat(r[..k]).value.directory)
  {
    assert DirectoriesAbove(fs, r);
    assert r[..|r|] == r;
  }

  /** A directory has one canonical path. */
  lemma DirectoryIsOnePlace(fs: Fs, p: Path, q: Path)
    requires ValidFs(fs) && Canonical(fs, p) && Canonical(fs, q) && SameDirectory(fs, p, q)
    ensures p == q
  {
    assert OnePlace(fs, p, q);
  }

  /** A decision is the walk from the candidate's canonical location. */
  lemma DecideAt(fs: Fs, candidate: Text, root: Text, loc: Location)
    requires candidate.absolute && root.absolute && fs.stat(root.parts).Some?
    requires Locate(fs, Abspath(fs, candidate)) == Some(loc)
    ensures Decide(fs, candidate, root) == Extend(WalkUp(fs, loc.anchor, fs.stat(root.parts).value), loc.missing)
  {
  }

  /** A canonical path is decided from where it stands. */
  lemma DecideCanonical(fs: Fs, r: Path, root: Text)
    requires ValidFs(fs) && Canonical(fs, r) && fs.stat(r).Some? && root.absolute && fs.stat(root.parts).Some?
    ensures Decide(fs, AsText(r), root) == WalkUp(fs, r, fs.stat(root.parts).value)
  {
    ResolvedIsCanonical(fs, r, 0);
    NormalIsClean(r);
    StattedIsAnchor(fs, r);
    DecideAt(fs, AsText(r), root, Location(r, []));
    var d := WalkUp(fs, r, fs.stat(root.parts).value);
    assert d.Inside? ==> d.parts + [] == d.parts;
  }

  /**
   The lowest hit for `ic` above `mid` is still the lowest hit from a path below `mid`,
   which has its own inode there.
   */
  lemma HitBelow(fs: Fs, node: Path, mid: Path, ic: Inode, kc: nat)
    requires ValidFs(fs) && AllCanonical(fs, node) && mid <= node && HitAt(fs, mid, ic, kc)
    requires forall j | |mid| <= j <= |node| :: fs.stat(node[..j]).Some?
    ensures HitAt(fs, node, ic, kc)
  {
    assert node[..|node|] == node && node[..kc] == mid[..kc] && node[..|mid|] == mid;
    if kc < |node| {
      AncestorIsDirectory(fs, node, kc);
    }
    forall j | kc < j <= |node| ensures fs.stat(node[..j]).Some? && fs.stat(node[..j]).value != ic {
      if j <= |mid| {
        assert node[..j] == mid[..j];
      } else if fs.stat(node[..j]) == Some(ic) {
        DirectoryIsOnePlace(fs, node[..kc], node[..j]);
      }
    }
  }

  /** Whatever canonical path leads to b's inode, c is found above it by the same parts as above b. */
  ghost predicate SameFromEveryName(fs: Fs, b: Text, c: Text) {
    forall r | Canonical(fs, r) && fs.stat(r).Some? && fs.stat(r) == fs.stat(b.parts) ::
      Decide(fs, AsText(r), c) == Decide(fs, b, c)
  }

  ghost predicate Composes(fs: Fs, b: Text, c: Text)
    requires Decide(fs, b, c).Inside?
  {
    forall a | Decide(fs, a, b).Inside? :: Decide(fs, a, c) == Inside(Decide(fs, b, c).parts + Decide(fs, a, b).parts)
  }

  /**
   Containment composes through b (a inside b by p and b inside c by q gives a inside c
   by q + p, for every a) if and only if b's inode stands at the same place below c under
   every name it has.
   */
  lemma ContainmentComposesExactly(fs: Fs, b: Text, c: Text)
    requires ValidFs(fs) && Decide(fs, b, c).Inside?
    ensures Composes(fs, b, c) <==> SameFromEveryName(fs, b, c)
  {
    if Composes(fs, b, c) {
      forall r | Canonical(fs, r) && fs.stat(r).Some? && fs.stat(r) == fs.stat(b.parts)
        ensures Decide(fs, AsText(r), c) == Decide(fs, b, c)
      {
        DecideCanonical(fs, r, b);
        assert Decide(fs, AsText(r), b) == Inside([]);
        assert Decide(fs, b, c).parts + [] == Decide(fs, b, c).parts;
      }
    }
    if SameFromEveryName(fs, b, c) {
      forall a | Decide(fs, a, b).Inside?
        ensures Decide(fs, a, c) == Inside(Decide(fs, b, c).parts + Decide(fs, a, b).parts)
      {
        ComposesThroughName(fs, a, b, c);
      }
    }
  }

  lemma ComposesThroughName(fs: Fs, a: Text, b: Text, c: Text)
    requires ValidFs(fs) && Decide(fs, a, b).Inside? && Decide(fs, b, c).Inside? && SameFromEveryName(fs, b, c)
    ensures Decide(fs, a, c) == Inside(Decide(fs, b, c).parts + Decide(fs, a, b).parts)
  {
    var loc, ka := InsideHit(fs, a, b);
    LocateAnchor(fs, Abspath(fs, a));
    var mid := loc.anchor[..ka];
    assert Canonical(fs, mid) && Decide(fs, AsText(mid), c) == Decide(fs, b, c);
    var kc := CanonicalHit(fs, mid, c);
    BelowName(fs, a, c, loc, mid, kc);
    assert loc.anchor[|mid|..] == loc.anchor[ka..];
  }

  lemma CanonicalHit(fs: Fs, mid: Path, c: Text) returns (kc: nat)
    requires ValidFs(fs) && Canonical(fs, mid) && fs.stat(mid).Some? && Decide(fs, AsText(mid), c).Inside?
    ensures c.absolute && fs.stat(c.parts).Some? && kc <= |mid| && HitAt(fs, mid, fs.stat(c.parts).value, kc)
    ensures Decide(fs, AsText(mid), c).parts == mid[kc..]
  {
    var ic := fs.stat(c.parts).value;
    DecideCanonical(fs, mid, c);
    WalkUpParts(fs, mid, ic);
    kc := |mid| - |Decide(fs, AsText(mid), c).parts|;
    WalkUpInside(fs, mid, ic, kc);
  }

  lemma BelowName(fs: Fs, a: Text, c: Text, loc: Location, mid: Path, kc: nat)
    requires ValidFs(fs) && a.absolute && c.absolute && fs.stat(c.parts).Some?
        && Locate(fs, Abspath(fs, a)) == Some(loc)
    requires AllCanonical(fs, loc.anchor) && mid <= loc.anchor && kc <= |mid|
        && HitAt(fs, mid, fs.stat(c.parts).value, kc)
    requires forall j | |mid| <= j <= |loc.anchor| :: fs.stat(loc.anchor[..j]).Some?
    ensures Decide(fs, a, c) == Inside(mid[kc..] + (loc.anchor[|mid|..] + loc.missing))
  {
    var ic := fs.stat(c.parts).value;
    HitBelow(fs, loc.anchor, mid, ic, kc);
    WalkUpInside(fs, loc.anchor, ic, kc);
    DecideAt(fs, a, c, loc);
    ComposedParts(loc, mid, kc);
  }

  lemma ComposedParts(loc: Location, mid: Path, kc: nat)
    requires mid <= loc.anchor && kc <= |mid|
    ensures loc.anchor[kc..] + loc.missing == mid[kc..] + (loc.anchor[|mid|..] + loc.missing)
  {
    assert loc.anchor == mid + loc.anchor[|mid|..];
  }

  /** In particular through every directory whose text is honest: it has no second name. */
  lemma ContainmentComposes(fs: Fs, a: Text, b: Text, c: Text)
    requires ValidFs(fs) && Decide(fs, a, b).Inside? && Decide(fs, b, c).Inside?
    requires fs.stat(b.parts).Some? && fs.stat(b.parts).value.directory && Honest(fs, b)
    ensures Decide(fs, a, c) == Inside(Decide(fs, b, c).parts + Decide(fs, a, b).parts)
  {
    var bn := Abspath(fs, b);
    NormalIsClean(b.parts);
    StattedIsAnchor(fs, bn);
    var place := fs.realpath(bn).value;
    DecideAt(fs, b, c, Location(place, []));
    DecideCanonical(fs, place, c);
    forall r | Canonical(fs, r) && fs.stat(r).Some? && fs.stat(r) == fs.stat(b.parts)
      ensures Decide(fs, AsText(r), c) == Decide(fs, b, c)
    {
      DirectoryIsOnePlace(fs, r, place);
    }
    ContainmentComposesExactly(fs, b, c);
  }

  // ----- the anchored form -----

  /** With an honest root that can be statted, the anchored decision is the plain one, parts included. */
  lemma AnchoredExtendsPlain(fs: Fs, candidate: Text, root: Text)
    requires ValidFs(fs) && Honest(fs, root)
    ensures fs.stat(root.parts).Some? ==> DecideAnchored(fs, candidate, root) == Decide(fs, candidate, root)
    ensures !Decide(fs, candidate, root).Unknown? ==> DecideAnchored(fs, candidate, root) == Decide(fs, candidate, root)
    ensures DecideAnchored(fs, candidate, root) != Decide(fs, candidate, root) ==>
              Decide(fs, candidate, root).Unknown? && fs.stat(root.parts).None?
  {
    if fs.stat(root.parts).Some? {
      var p := Abspath(fs, root);
      NormalIsClean(if root.absolute then root.parts else fs.cwd + root.parts);
      StattedIsAnchor(fs, p);
      if root.absolute {
        OwnDecision(fs, root);
        SameInodeSameDecision(fs, candidate, root, AsText(p));
        var d := Decide(fs, candidate, root);
        assert d.Inside? ==> d.parts[0..] == d.parts;
      }
    }
  }

  lemma SameInodeSameDecision(fs: Fs, candidate: Text, root: Text, other: Text)
    requires root.absolute && other.absolute && fs.stat(root.parts) == fs.stat(other.parts)
    ensures Decide(fs, candidate, root) == Decide(fs, candidate, other)
  {
  }

  /** A text seen from its own nearest existing ancestor: exactly the missing components. */
  lemma OwnDecision(fs: Fs, t: Text)
    requires ValidFs(fs) && t.absolute && Nearest(fs, Abspath(fs, t)).Some?
    requires fs.stat(Nearest(fs, Abspath(fs, t)).value).Some?
    ensures var p, near := Abspath(fs, t), Nearest(fs, Abspath(fs, t)).value;
            && Clean(near) && fs.realpath(near).Some?
            && Locate(fs, p) == Some(Location(fs.realpath(near).value, p[|near|..]))
            && Decide(fs, t, AsText(near)) == Inside(p[|near|..])
  {
    var p, near := Abspath(fs, t), Nearest(fs, Abspath(fs, t)).value;
    NormalIsClean(t.parts);
    CleanPrefix(p, near);
    StattedIsAnchor(fs, near);
    DecideAt(fs, t, AsText(near), Location(fs.realpath(near).value, p[|near|..]));
    assert [] + p[|near|..] == p[|near|..];
  }

  ghost predicate AgreesWhereDecided(fs: Fs, root: Text) {
    forall candidate | !Decide(fs, candidate, root).Unknown? ::
        DecideAnchored(fs, candidate, root) == Decide(fs, candidate, root)
  }

  /**
   The two forms agree wherever the plain one decides if and only if the kernel and
   lexical normalization resolve the root text alike, or the plain form never decides
   because the root is relative or cannot be statted.
   */
  lemma AnchoredAgreesExactly(fs: Fs, root: Text)
    requires ValidFs(fs)
    ensures AgreesWhereDecided(fs, root) <==> (root.absolute && fs.stat(root.parts).Some? ==> Honest(fs, root))
  {
    if root.absolute && fs.stat(root.parts).Some? && !Honest(fs, root) {
      var candidate := DishonestRootDisagrees(fs, root);
      assert !Decide(fs, candidate, root).Unknown?
          && DecideAnchored(fs, candidate, root) != Decide(fs, candidate, root);
    } else {
      forall candidate | !Decide(fs, candidate, root).Unknown?
        ensures DecideAnchored(fs, candidate, root) == Decide(fs, candidate, root)
      {
        AnchoredExtendsPlain(fs, candidate, root);
      }
    }
  }

  /** The lexical root itself shows it, or "/" if the lexical root has no anchor that can be statted. */
  lemma DishonestRootDisagrees(fs: Fs, root: Text) returns (candidate: Text)
    requires ValidFs(fs) && root.absolute && fs.stat(root.parts).Some? && !Honest(fs, root)
    ensures !Decide(fs, candidate, root).Unknown? && DecideAnchored(fs, candidate, root) != Decide(fs, candidate, root)
  {
    var near := Nearest(fs, Abspath(fs, root));
    if near.Some? && fs.stat(near.value).Some? {
      candidate := AsText(Abspath(fs, root));
      LexicalRootAnchored(fs, root);
      LexicalRootPlain(fs, root);
    } else {
      candidate := AsText([]);
      TopIsDecided(fs, root);
    }
  }

  lemma TopIsDecided(fs: Fs, root: Text)
    requires ValidFs(fs) && root.absolute && fs.stat(root.parts).Some?
    ensures !Decide(fs, AsText([]), root).Unknown?
  {
    StattedIsAnchor(fs, []);
    ResolvedIsCanonical(fs, [], 0);
    assert fs.realpath([]).value[..0] == [];
    DecideCanonical(fs, [], root);
  }

  lemma LexicalRoot(fs: Fs, root: Text)
    ensures Abspath(fs, AsText(Abspath(fs, root))) == Abspath(fs, root)
  {
    NormalIsClean(if root.absolute then root.parts else fs.cwd + root.parts);
    NormalIsClean(Abspath(fs, root));
  }

  lemma LexicalRootAnchored(fs: Fs, root: Text)
    requires ValidFs(fs) && root.absolute
    requires var near := Nearest(fs, Abspath(fs, root)); near.Some? && fs.stat(near.value).Some?
    ensures DecideAnchored(fs, AsText(Abspath(fs, root)), root) == Inside([])
  {
    LexicalRoot(fs, root);
    OwnDecision(fs, root);
    OwnDecision(fs, AsText(Abspath(fs, root)));
  }

  lemma LexicalRootPlain(fs: Fs, root: Text)
    requires ValidFs(fs) && root.absolute && fs.stat(root.parts).Some? && !Honest(fs, root)
    requires var near := Nearest(fs, Abspath(fs, root)); near.Some? && fs.stat(near.value).Some?
    ensures var d := Decide(fs, AsText(Abspath(fs, root)), root); !d.Unknown? && d != Inside([])
  {
    var p, near := Abspath(fs, root), Nearest(fs, Abspath(fs, root)).value;
    LexicalRoot(fs, root);
    OwnDecision(fs, root);
    var r, inode := fs.realpath(near).value, fs.stat(root.parts).value;
    DecideAt(fs, AsText(p), root, Location(r, p[|near|..]));
    AnchorDecides(fs, near, inode);
    ExtendToNothing(WalkUp(fs, r, inode), p[|near|..]);
    assert p[|near|..] == [] ==> near == p;
  }

  lemma ExtendToNothing(d: Decision, more: seq<string>)
    ensures Extend(d, more) == Inside([]) ==> d == Inside([]) && more == []
  {
    assert d.Inside? ==> |d.parts + more| == |d.parts| + |more|;
  }

  /** Below an existing, statted anchor nothing stays unknown. */
  lemma {:induction false} WalkUpDecides(fs: Fs, node: Path, inode: Inode)
    requires forall j | 0 <= j <= |node| :: fs.stat(node[..j]).Some?
    ensures !WalkUp(fs, node, inode).Unknown?
  {
    assert node[..|node|] == node;
    if node != [] {
      assert forall j | 0 <= j < |node| :: Parent(node)[..j] == node[..j];
      WalkUpDecides(fs, Parent(node), inode);
    }
  }

  lemma AnchorDecides(fs: Fs, near: Path, inode: Inode)
    requires ValidFs(fs) && Clean(near) && fs.stat(near).Some?
    ensures fs.realpath(near).Some? && !WalkUp(fs, fs.realpath(near).value, inode).Unknown?
    ensures WalkUp(fs, fs.realpath(near).value, inode) == Inside([]) ==> fs.stat(near) == Some(inode)
  {
    StattedIsAnchor(fs, near);
    var r := fs.realpath(near).value;
    forall j | 0 <= j <= |r| ensures fs.stat(r[..j]).Some? {
      AncestorIsDirectory(fs, r, j);
    }
    WalkUpDecides(fs, r, inode);
    WalkUpInside(fs, r, inode, |r|);
    assert r[|r|..] == [] && r[..|r|] == r;
  }

  // ----- identity -----

  lemma {:induction false} NearestMissing(fs: Fs, p: Path)
    requires Nearest(fs, p).Some? && |Nearest(fs, p).value| < |p|
    ensures fs.lstat(p[..|Nearest(fs, p).value| + 1]).Missing?
  {
    var near := Nearest(fs, p).value;
    if |near| + 1 == |p| {
      assert p[..|p|] == p;
    } else {
      NearestMissing(fs, Parent(p));
      assert Parent(p)[..|near| + 1] == p[..|near| + 1];
    }
  }

  /** The first missing component is not there in the resolved directory either. */
  lemma FirstMissing(fs: Fs, p: Path)
    requires ValidFs(fs) && Clean(p) && Locate(fs, p).Some? && Locate(fs, p).value.missing != []
    ensures var loc := Locate(fs, p).value; fs.stat(loc.anchor + [loc.missing[0]]).None?
  {
    var near, x := Nearest(fs, p).value, Locate(fs, p).value.missing[0];
    NearestMissing(fs, p);
    assert p[..|near| + 1] == near + [x] && x in p;
    assert ResolvesWell(fs, near);
    assert Clean([x]);
  }

  /** A missing component cannot be a component of an existing canonical path. */
  lemma MissingStopsHere(fs: Fs, p: Path, r: Path)
    requires ValidFs(fs) && Clean(p) && Locate(fs, p).Some? && Canonical(fs, r) && fs.stat(r).Some?
    requires r <= FullPath(Locate(fs, p).value)
    ensures r <= Locate(fs, p).value.anchor
  {
    var loc := Locate(fs, p).value;
    if |r| > |loc.anchor| {
      FirstMissing(fs, p);
      assert r[..|loc.anchor| + 1] == loc.anchor + [loc.missing[0]];
      AncestorIsDirectory(fs, r, |loc.anchor| + 1);
    }
  }

  /** The candidate's existing part has the inode of the reference's, and the same components are missing below. */
  predicate SameInodeAndMissing(fs: Fs, loc: Location, ref: Location) {
    fs.stat(loc.anchor).Some? && fs.stat(loc.anchor) == fs.stat(ref.anchor) && loc.missing == ref.missing
  }

  /**
   A decided identity is true if and only if the existing parts of the two canonical
   locations are one inode and the missing components agree. If that inode is a
   directory, this means that the locations are equal; a file may have two names.
   */
  lemma EqualMeansSameLocation(fs: Fs, candidate: Text, reference: Text)
    requires ValidFs(fs) && PathsEqual(fs, candidate, reference).Some?
    ensures Locate(fs, Abspath(fs, candidate)).Some? && Locate(fs, Abspath(fs, reference)).Some?
    ensures var loc, ref := Locate(fs, Abspath(fs, candidate)).value, Locate(fs, Abspath(fs, reference)).value;
            && fs.stat(ref.anchor).Some?
            && (PathsEqual(fs, candidate, reference).value <==> SameInodeAndMissing(fs, loc, ref))
            && (fs.stat(ref.anchor).value.directory ==>
                  (PathsEqual(fs, candidate, reference).value <==> FullPath(loc) == FullPath(ref)))
  {
    var near := Nearest(fs, Abspath(fs, reference)).value;
    OwnDecision(fs, reference);
    StattedIsAnchor(fs, near);
    var ref := Locate(fs, Abspath(fs, reference)).value;
    var loc := DecidedAt(fs, candidate, AsText(near));
    NormalIsClean(candidate.parts);
    NormalIsClean(reference.parts);
    CompareAtAnchor(fs, candidate, reference, loc, ref);
    if fs.stat(ref.anchor).value.directory {
      SameInodeIsSamePath(fs, candidate, reference, loc, ref);
    }
  }

  lemma DecidedAt(fs: Fs, candidate: Text, root: Text) returns (loc: Location)
    requires !Decide(fs, candidate, root).Unknown?
    ensures candidate.absolute && root.absolute && fs.stat(root.parts).Some?
    ensures Locate(fs, Abspath(fs, candidate)) == Some(loc)
    ensures fs.stat(loc.anchor).Some? && !WalkUp(fs, loc.anchor, fs.stat(root.parts).value).Unknown?
    ensures Decide(fs, candidate, root) == Extend(WalkUp(fs, loc.anchor, fs.stat(root.parts).value), loc.missing)
  {
    loc := Locate(fs, Abspath(fs, candidate)).value;
  }

  /** Walking up from the candidate's anchor yields the reference's missing parts only without a step. */
  lemma CompareAtAnchor(fs: Fs, candidate: Text, reference: Text, loc: Location, ref: Location)
    requires ValidFs(fs) && Clean(Abspath(fs, candidate)) && Clean(Abspath(fs, reference))
    requires Locate(fs, Abspath(fs, candidate)) == Some(loc) && Locate(fs, Abspath(fs, reference)) == Some(ref)
    requires fs.stat(loc.anchor).Some? && fs.stat(ref.anchor).Some?
    ensures Extend(WalkUp(fs, loc.anchor, fs.stat(ref.anchor).value), loc.missing) == Inside(ref.missing) <==>
              SameInodeAndMissing(fs, loc, ref)
  {
    var inode := fs.stat(ref.anchor).value;
    var d := WalkUp(fs, loc.anchor, inode);
    if d.Inside? {
      WalkUpParts(fs, loc.anchor, inode);
      var k := |loc.anchor| - |d.parts|;
      WalkUpInside(fs, loc.anchor, inode, k);
      assert loc.anchor[..|loc.anchor|] == loc.anchor;
      if k == |loc.anchor| {
        assert [] + loc.missing == loc.missing;
      } else {
        DeeperIsDifferent(fs, candidate, reference, loc, ref, k);
      }
    }
  }

  /** An anchor strictly below the reference's is not named by the components missing there. */
  lemma DeeperIsDifferent(fs: Fs, candidate: Text, reference: Text, loc: Location, ref: Location, k: nat)
    requires ValidFs(fs) && Clean(Abspath(fs, reference))
    requires Locate(fs, Abspath(fs, candidate)) == Some(loc) && Locate(fs, Abspath(fs, reference)) == Some(ref)
    requires fs.stat(loc.anchor).Some? && k < |loc.anchor| && fs.stat(loc.anchor[..k]) == fs.stat(ref.anchor)
    ensures loc.anchor[k..] + loc.missing != ref.missing
  {
    LocateAnchor(fs, Abspath(fs, candidate));
    LocateAnchor(fs, Abspath(fs, reference));
    assert loc.anchor[..|loc.anchor|] == loc.anchor && ref.anchor[..|ref.anchor|] == ref.anchor;
    AncestorIsDirectory(fs, loc.anchor, k);
    DirectoryIsOnePlace(fs, loc.anchor[..k], ref.anchor);
    if loc.anchor[k..] + loc.missing == ref.missing {
      assert FullPath(ref) == ref.anchor + (loc.anchor[k..] + loc.missing) == loc.anchor + loc.missing;
      MissingStopsHere(fs, Abspath(fs, reference), loc.anchor);
    }
  }

  lemma SameInodeIsSamePath(fs: Fs, candidate: Text, reference: Text, loc: Location, ref: Location)
    requires ValidFs(fs) && Clean(Abspath(fs, candidate)) && Clean(Abspath(fs, reference))
    requires Locate(fs, Abspath(fs, candidate)) == Some(loc) && Locate(fs, Abspath(fs, reference)) == Some(ref)
    requires fs.stat(loc.anchor).Some? && fs.stat(ref.anchor).Some? && fs.stat(ref.anchor).value.directory
    ensures SameInodeAndMissing(fs, loc, ref) <==> FullPath(loc) == FullPath(ref)
  {
    LocateAnchor(fs, Abspath(fs, candidate));
    LocateAnchor(fs, Abspath(fs, reference));
    assert loc.anchor[..|loc.anchor|] == loc.anchor && ref.anchor[..|ref.anchor|] == ref.anchor;
    if SameInodeAndMissing(fs, loc, ref) {
      DirectoryIsOnePlace(fs, loc.anchor, ref.anchor);
    }
    if FullPath(loc) == FullPath(ref) {
      assert ref.anchor <= FullPath(ref) && loc.anchor <= FullPath(loc);
      MissingStopsHere(fs, Abspath(fs, candidate), ref.anchor);
      MissingStopsHere(fs, Abspath(fs, reference), loc.anchor);
      assert loc.anchor == ref.anchor;
      assert FullPath(loc)[|loc.anchor|..] == loc.missing && FullPath(ref)[|ref.anchor|..] == ref.missing;
    }
  }

  // ----- what the anchored form means, missing roots included -----

  /**
   With a directory as the root's nearest existing ancestor, a decided candidate is inside
   by exactly the parts that lead from the root's canonical location to its own, whether
   or not the root exists yet.
   */
  lemma AnchoredMeans(fs: Fs, candidate: Text, root: Text, parts: seq<string>)
    requires ValidFs(fs) && !DecideAnchored(fs, candidate, root).Unknown?
    requires fs.stat(Nearest(fs, Abspath(fs, root)).value).value.directory
    ensures Locate(fs, Abspath(fs, candidate)).Some? && Locate(fs, Abspath(fs, root)).Some?
    ensures var loc, ref := Locate(fs, Abspath(fs, candidate)).value, Locate(fs, Abspath(fs, root)).value;
            DecideAnchored(fs, candidate, root) == Inside(parts) <==> FullPath(loc) == FullPath(ref) + parts
  {
    var p, near := Abspath(fs, root), Nearest(fs, Abspath(fs, root)).value;
    OwnDecision(fs, root);
    var r, missing := fs.realpath(near).value, p[|near|..];
    var loc := DecidedAt(fs, candidate, AsText(near));
    var cd := Decide(fs, candidate, AsText(near));
    if cd.Inside? {
      PartsFromAnchor(fs, candidate, near);
      SplitParts(r, missing, cd.parts, parts);
    } else {
      NotBelowAnchor(fs, candidate, near, missing + parts);
      assert r + (missing + parts) == r + missing + parts;
    }
  }

  lemma SplitParts(r: Path, missing: seq<string>, found: seq<string>, parts: seq<string>)
    ensures missing <= found && found[|missing|..] == parts <==> r + found == r + missing + parts
  {
    assert found == missing + parts <==> missing <= found && found[|missing|..] == parts;
    assert r + missing + parts == r + (missing + parts);
    assert (r + found)[|r|..] == found && (r + (missing + parts))[|r|..] == missing + parts;
  }

  lemma PartsFromAnchor(fs: Fs, candidate: Text, near: Path)
    requires ValidFs(fs) && Clean(near) && fs.stat(near).Some? && fs.stat(near).value.directory
    requires Decide(fs, candidate, AsText(near)).Inside?
    ensures Locate(fs, Abspath(fs, candidate)).Some? && fs.realpath(near).Some?
    ensures FullPath(Locate(fs, Abspath(fs, candidate)).value) ==
            fs.realpath(near).value + Decide(fs, candidate, AsText(near)).parts
  {
    StattedIsAnchor(fs, near);
    var loc, k := InsideHit(fs, candidate, AsText(near));
    LocateAnchor(fs, Abspath(fs, candidate));
    DirectoryIsOnePlace(fs, loc.anchor[..k], fs.realpath(near).value);
    assert FullPath(loc) == loc.anchor[..k] + (loc.anchor[k..] + loc.missing);
  }

  lemma PrefixIsHit(fs: Fs, node: Path, inode: Inode, r: Path)
    requires r <= node && fs.stat(r) == Some(inode)
    ensures !NoHit(fs, node, inode)
  {
    assert node[..|r|] == r;
  }

  lemma NotBelowAnchor(fs: Fs, candidate: Text, near: Path, parts: seq<string>)
    requires ValidFs(fs) && Clean(near) && fs.stat(near).Some?
    requires Decide(fs, candidate, AsText(near)).Outside?
    ensures Locate(fs, Abspath(fs, candidate)).Some? && fs.realpath(near).Some?
    ensures FullPath(Locate(fs, Abspath(fs, candidate)).value) != fs.realpath(near).value + parts
  {
    StattedIsAnchor(fs, near);
    OutsideMeans(fs, candidate, AsText(near));
    var r, loc := fs.realpath(near).value, Locate(fs, Abspath(fs, candidate)).value;
    NormalIsClean(candidate.parts);
    if FullPath(loc) == r + parts {
      MissingStopsHere(fs, Abspath(fs, candidate), r);
      PrefixIsHit(fs, loc.anchor, fs.stat(near).value, r);
    }
  }

  // ----- a file with two names -----

  const DIR0 := Inode(0, true)
  const DIR1 := Inode(1, true)
  const DIR2 := Inode(2, true)
  const FILE := Inode(3, false)

  /** "/d/x" and "/e/x" are two hard links to one file; there are no symlinks. */
  function TwoLinks(): Fs {
    var stat := (p: seq<string>) =>
      if p == [] then Some(DIR0)
      else if p == ["d"] then Some(DIR1)
      else if p == ["e"] then Some(DIR2)
      else if p == ["d", "x"] || p == ["e", "x"] then Some(FILE)
      else None;
    Fs((p: Path) => if stat(p).Some? then Present else Missing, stat,
       (p: Path) => if stat(p).Some? then Some(p) else None, [])
  }

  const D: Path := ["d"]
  const E: Path := ["e"]
  const DX: Path := ["d", "x"]
  const EX: Path := ["e", "x"]

  lemma TwoLinksStats()
    ensures var fs := TwoLinks();
            && fs.stat([]) == Some(DIR0) && fs.stat(D) == Some(DIR1) && fs.stat(E) == Some(DIR2)
            && fs.stat(DX) == fs.stat(EX) == Some(FILE)
            && (forall p :: fs.stat(p).Some? <==> p == [] || p == D || p == E || p == DX || p == EX)
            && (forall p :: fs.lstat(p) == if fs.stat(p).Some? then Present else Missing)
            && (forall p :: fs.realpath(p) == if fs.stat(p).Some? then Some(p) else None)
    ensures D != E && E != DX && D != EX
  {
    assert D[0] != E[0];
  }

  lemma Parents()
    ensures Parent(DX) == D && Parent(EX) == E && Parent(D) == [] && Parent(E) == []
    ensures Clean(D) && Clean(E) && Clean(DX) && Clean(EX)
  {
  }

  lemma TwoLinksWalks()
    ensures var fs := TwoLinks();
            && WalkUp(fs, DX, FILE) == Inside([])
            && WalkUp(fs, EX, DIR2) == Inside(["x"])
            && WalkUp(fs, DX, DIR2) == Outside
  {
    var fs := TwoLinks();
    TwoLinksStats();
    Parents();
    assert WalkUp(fs, E, DIR2) == Inside([]);
    assert [] + [Base(EX)] == ["x"];
    assert WalkUp(fs, [], DIR2) == Outside;
    assert WalkUp(fs, D, DIR2) == Outside;
  }

  lemma PlainDecision(fs: Fs, p: Path, root: Path)
    requires Clean(p) && fs.lstat(p).Present? && fs.realpath(p) == Some(p) && fs.stat(root).Some?
    ensures Decide(fs, Text(true, p), Text(true, root)) == WalkUp(fs, p, fs.stat(root).value)
  {
    NormalIsClean(p);
    assert p[|p|..] == [];
    var d := WalkUp(fs, p, fs.stat(root).value);
    assert d.Inside? ==> d.parts + [] == d.parts;
  }

  /** Composition needs b to have one name: through a hard-linked file it fails. */
  lemma HardLinkBreaksComposition()
    ensures var fs, a, b, c := TwoLinks(), Text(true, DX), Text(true, EX), Text(true, E);
            && Decide(fs, a, b) == Inside([]) && Decide(fs, b, c) == Inside(["x"])
            && Honest(fs, b) && Decide(fs, a, c) == Outside
  {
    TwoLinksStats();
    TwoLinksWalks();
    Parents();
    PlainDecision(TwoLinks(), DX, EX);
    PlainDecision(TwoLinks(), EX, E);
    PlainDecision(TwoLinks(), DX, E);
    NormalIsClean(EX);
  }

  /** And identity is one of inodes, not of places: the two names are equal although their locations differ. */
  lemma HardLinksAreEqual()
    ensures var fs, a, b := TwoLinks(), Text(true, DX), Text(true, EX);
            && PathsEqual(fs, a, b) == Some(true)
            && Locate(fs, Abspath(fs, a)) == Some(Location(DX, []))
            && Locate(fs, Abspath(fs, b)) == Some(Location(EX, []))
            && DX != EX
  {
    LinkLocated(DX);
    LinkLocated(EX);
    TwoLinksStats();
    TwoLinksWalks();
    assert WalkUp(TwoLinks(), EX, FILE) == Inside([]);
    DecideAt(TwoLinks(), Text(true, DX), AsText(EX), Location(DX, []));
    DecideAt(TwoLinks(), Text(true, EX), AsText(EX), Location(EX, []));
    assert DX[0] != EX[0];
  }

  lemma LinkLocated(p: Path)
    requires p == DX || p == EX
    ensures Abspath(TwoLinks(), Text(true, p)) == p && Nearest(TwoLinks(), p) == Some(p)
    ensures Locate(TwoLinks(), p) == Some(Location(p, []))
  {
    TwoLinksStats();
    Parents();
    CanonicalIsLocated(TwoLinks(), p);
  }

  lemma CanonicalIsLocated(fs: Fs, p: Path)
    requires Clean(p) && fs.lstat(p).Present? && Canonical(fs, p)
    ensures Abspath(fs, Text(true, p)) == p && Nearest(fs, p) == Some(p) && Locate(fs, p) == Some(Location(p, []))
  {
    NormalIsClean(p);
    assert p[|p|..] == [];
  }

  lemma TwoLinksNode(p: Path)
    requires TwoLinks().stat(p).Some?
    ensures Clean(p) && AllCanonical(TwoLinks(), p) && AncestorsAreDirectories(TwoLinks(), p)
  {
    var fs := TwoLinks();
    TwoLinksStats();
    Parents();
    assert p[..|p|] == p;
    if |p| > 0 {
      assert p[..0] == [];
    }
    if |p| == 2 {
      assert p[..1] == Parent(p);
    }
    forall k | 0 <= k <= |p|
      ensures Canonical(fs, p[..k]) && (k < |p| ==> fs.stat(p[..k]).Some? && fs.stat(p[..k]).value.directory)
    {
      assert k == 0 || k == |p| || (|p| == 2 && k == 1);
    }
  }

  /** The counterexamples live on a legitimate snapshot. */
  lemma TwoLinksIsValid()
    ensures ValidFs(TwoLinks())
  {
    var fs := TwoLinks();
    TwoLinksStats();
    forall p ensures ResolvesWell(fs, p) && DirectoriesAbove(fs, p) {
      if fs.stat(p).Some? {
        TwoLinksNode(p);
      }
    }
    forall p, q ensures OnePlace(fs, p, q) {
      TwoLinksPlaces(p, q);
    }
  }

  lemma TwoLinksPlaces(p: Path, q: Path)
    ensures OnePlace(TwoLinks(), p, q)
  {
    TwoLinksStats();
  }

  // ----- a link that ".." does not undo -----

  datatype Node = Top | Dir | Sub

  /** "/l" is a symlink to "/d/s": one step of the kernel, which follows it before it sees "..". */
  function KernelStep(n: Node, x: string): Option<Node> {
    if x == "" || x == "." then Some(n)
    else if x == ".." then Some(if n.Sub? then Dir else Top)
    else if n.Top? && x == "d" then Some(Dir)
    else if (n.Top? && x == "l") || (n.Dir? && x == "s") then Some(Sub)
    else None
  }

  function Kernel(parts: seq<string>): Option<Node> {
    if parts == [] then Some(Top)
    else
      match Kernel(parts[..|parts| - 1])
      case None => None
      case Some(n) => KernelStep(n, parts[|parts| - 1])
  }

  function Place(n: Node): Path {
    match n
    case Top => []
    case Dir => ["d"]
    case Sub => ["d", "s"]
  }

  function InodeOf(n: Node): Inode {
    Inode(match n case Top => 0 case Dir => 1 case Sub => 2, true)
  }

  function Linked(): Fs {
    Fs((p: Path) => if Kernel(p).Some? then Present else Missing,
       (p: seq<string>) => if Kernel(p).Some? then Some(InodeOf(Kernel(p).value)) else None,
       (p: Path) => if Clean(p) && Kernel(p).Some? then Some(Place(Kernel(p).value)) else None,
       [])
  }

  const L: Path := ["l"]

  lemma PlacesAreWalked()
    ensures forall n :: Kernel(Place(n)) == Some(n) && Clean(Place(n))
    ensures Kernel(L) == Some(Sub) && Clean(L)
  {
    assert Kernel([]) == Some(Top);
    assert Place(Dir)[..0] == [] && Kernel(Place(Dir)) == Some(Dir);
    assert Place(Sub)[..1] == Place(Dir) && Kernel(Place(Sub)) == Some(Sub);
    assert L[..0] == [] && Kernel(L) == Some(Sub);
  }

  /** The clean paths that exist. */
  lemma {:induction false} CleanPaths(p: Path)
    requires Clean(p) && Kernel(p).Some?
    ensures p == Place(Kernel(p).value) || p == L
  {
    if p != [] {
      var init, x := p[..|p| - 1], p[|p| - 1];
      assert p == init + [x] && x in p;
      CleanPrefix(p, init);
      CleanPaths(init);
      NextPlace(init, x);
    }
  }

  lemma NextPlace(init: Path, x: string)
    requires Kernel(init).Some? && (init == Place(Kernel(init).value) || init == L)
    requires x != "" && x != "." && x != ".." && KernelStep(Kernel(init).value, x).Some?
    ensures init + [x] == Place(KernelStep(Kernel(init).value, x).value) || init + [x] == L
  {
    PlacesAreWalked();
  }

  lemma LinkedPlace(n: Node)
    ensures AllCanonical(Linked(), Place(n)) && AncestorsAreDirectories(Linked(), Place(n))
  {
    PlacesAreWalked();
    var p := Place(n);
    forall k | 0 <= k <= |p| ensures exists m :: p[..k] == Place(m) {
      assert p[..k] == Place(if k == 0 then Top else if k == 1 then Dir else Sub);
    }
  }

  lemma LinkedResolves(p: Path)
    ensures ResolvesWell(Linked(), p)
  {
    if Clean(p) && Kernel(p).Some? {
      var n := Kernel(p).value;
      LinkedPlace(n);
      PlacesAreWalked();
      forall x | Clean([x]) && Kernel(p + [x]).None? ensures Kernel(Place(n) + [x]).None? {
        assert (p + [x])[..|p|] == p && (Place(n) + [x])[..|Place(n)|] == Place(n);
      }
    }
  }

  lemma LinkedPath(p: Path)
    ensures DirectoriesAbove(Linked(), p)
    ensures Canonical(Linked(), p) ==> Kernel(p).Some? && p == Place(Kernel(p).value)
  {
    if Canonical(Linked(), p) {
      LinkedPlace(Kernel(p).value);
    }
  }

  lemma LinkedIsValid()
    ensures ValidFs(Linked())
  {
    var fs := Linked();
    PlacesAreWalked();
    forall p ensures StatsWell(fs, p) && ResolvesWell(fs, p) && DirectoriesAbove(fs, p) {
      LinkedResolves(p);
      LinkedPath(p);
    }
    forall p, q ensures OnePlace(fs, p, q) {
      LinkedPath(p);
      LinkedPath(q);
    }
  }

  /**
   With root "/l/..", which is "/d" to the kernel and "/" to the text, the two forms
   contradict each other about "/".
   */
  lemma LinkedRootDisagrees()
    ensures var fs, top, root := Linked(), AsText([]), Text(true, ["l", ".."]);
            && !Honest(fs, root) && Decide(fs, top, root) == Outside && DecideAnchored(fs, top, root) == Inside([])
  {
    var fs, top, root := Linked(), AsText([]), Text(true, ["l", ".."]);
    PlacesAreWalked();
    LinkedIsValid();
    assert root.parts[..1] == L && L[..0] == [];
    assert Kernel(root.parts) == KernelStep(Sub, "..");
    assert Normal([]) == [] && Normal(L) == L;
    assert Abspath(fs, root) == [];
    StattedIsAnchor(fs, []);
    DecideAt(fs, top, root, Location([], []));
    LexicalRootAnchored(fs, root);
  }
}
