/** The tree of names (fs/dir.c): the commands that create, remove and change directories, as steps on the
    logs of all directories. `Commands` proves that the commands on inodes in memory are these steps, and when
    adding an entry leaves more behind than a step does. */
module Namespace {
  import opened Layout
  import opened Dirents
  import opened FileSystem

  const ENOTDIR := -20

  /** The inode that `testfs_make_root_dir` takes on an empty file system. */
  const ROOT: nat := 0

  type Name = seq<byte>

  /** Every directory's log, the inodes in use for files, and the current directory. */
  datatype Names = Names(dirs: map<nat, Log>, files: set<nat>, cur: nat)

  function Used(s: Names): set<nat> { s.dirs.Keys + s.files }

  function LogOf(s: Names, d: nat): Log {
    if d in s.dirs then s.dirs[d] else []
  }

  /** The commands; `err` is the error of a write that adds to a directory, or 0 if both succeed. */
  datatype Cmd = Create(name: Name, err: int) | Mkdir(name: Name, err: int) | Rm(name: Name) | Cd(name: Name)

  /** `testfs_create_file_or_dir`. */
  function Make(s: Names, name: Name, dir: bool, err: int): (Names, int) {
    var es := LogOf(s, s.cur);
    if Lookup(es, name) >= 0 then (s, EEXIST)
    else
      var nr := FirstFreeInode(Used(s), 0);
      if nr == NR_INODES then (s, ENOSPC)
      else if err < 0 then (s, err)
      else
        var dirs := s.dirs[s.cur := Added(es, name, nr)];
        if dir then (s.(dirs := dirs[nr := [Entry(DOT, nr), Entry(DOTDOT, s.cur)]]), 0)
        else (s.(dirs := dirs, files := s.files + {nr}), 0)
  }

  /** `cmd_rm`. */
  function Unlink(s: Names, name: Name): (Names, int) {
    var es := LogOf(s, s.cur);
    var t := Lookup(es, name);
    if name == DOT || name == DOTDOT then (s, EINVAL)
    else if t < 0 then (s, t)
    else if t in s.dirs && !EmptyLog(s.dirs[t]) then (s, ENOTEMPTY)
    else (s.(dirs := s.dirs[s.cur := Removed(es, name)] - {t}, files := s.files - {t}), 0)
  }

  /** `cmd_cd`. */
  function Enter(s: Names, name: Name): (Names, int) {
    var t := Lookup(LogOf(s, s.cur), name);
    if t < 0 then (s, t) else if t !in s.dirs then (s, ENOTDIR) else (s.(cur := t), 0)
  }

  function Run(s: Names, c: Cmd): (Names, int) {
    match c
    case Create(name, err) => Make(s, name, false, err)
    case Mkdir(name, err) => Make(s, name, true, err)
    case Rm(name) => Unlink(s, name)
    case Cd(name) => Enter(s, name)
  }

  // ----- the invariant -----

  /** Entry `k` of directory `d` names a child. */
  predicate Edge(s: Names, d: nat, k: nat) {
    && d in s.dirs && k < |s.dirs[d]|
    && Live(s.dirs[d][k]) && s.dirs[d][k].name != DOT && s.dirs[d][k].name != DOTDOT
  }

  function Target(s: Names, d: nat, k: nat): nat {
    if Edge(s, d, k) then s.dirs[d][k].nr else ROOT
  }

  /** Where each inode is named, and how deep each directory lies. */
  datatype Shape = Shape(home: map<nat, (nat, nat)>, depth: map<nat, nat>)

  ghost predicate Logs(s: Names) {
    forall d {:trigger s.dirs[d]} :: d in s.dirs ==>
      && UniqueNames(s.dirs[d]) && ValidLog(s.dirs[d])
      && Lookup(s.dirs[d], DOT) == d && Lookup(s.dirs[d], DOTDOT) >= 0
  }

  ghost predicate Homes(s: Names, g: Shape) {
    && g.home.Keys == Used(s) - {ROOT}
    && (forall n {:trigger g.home[n]} :: n in g.home ==> Edge(s, g.home[n].0, g.home[n].1) && Target(s, g.home[n].0, g.home[n].1) == n)
    && (forall d: nat, k: nat {:trigger Edge(s, d, k)} :: Edge(s, d, k) ==>
          Target(s, d, k) in g.home && g.home[Target(s, d, k)] == (d, k))
  }

  /** `..` leads to the directory that names this one, one step nearer to the root. */
  ghost predicate Upward(s: Names, g: Shape) {
    && ROOT in s.dirs && Lookup(s.dirs[ROOT], DOTDOT) == ROOT
    && s.dirs.Keys <= g.depth.Keys
    && (forall d {:trigger g.home[d]} :: d in s.dirs && d != ROOT && d in g.home ==>
          Lookup(s.dirs[d], DOTDOT) == g.home[d].0 && g.home[d].0 in s.dirs && g.depth[d] == g.depth[g.home[d].0] + 1)
  }

  ghost predicate Tree(s: Names, g: Shape) {
    && s.cur in s.dirs && s.dirs.Keys !! s.files
    && (forall n :: n in Used(s) ==> n < NR_INODES)
    && Logs(s) && Homes(s, g) && Upward(s, g)
  }

  // ----- what the invariant means -----

  /** Every inode in use except the root has exactly one name apart from `.` and `..`, and the root has
      none; the `..` of a directory is where it is named. */
  lemma OneName(s: Names, g: Shape, n: nat)
    requires Tree(s, g)
    ensures n in Used(s) && n != ROOT <==> exists d: nat, k: nat :: Edge(s, d, k) && Target(s, d, k) == n
    ensures forall d: nat, k: nat, e: nat, j: nat :: Edge(s, d, k) && Edge(s, e, j) && Target(s, d, k) == Target(s, e, j) ==> d == e && k == j
    ensures forall d: nat, k: nat :: Edge(s, d, k) && Target(s, d, k) in s.dirs ==> Lookup(s.dirs[Target(s, d, k)], DOTDOT) == d
  {
    hide Edge, Logs, Lookup, Target;
    if n in Used(s) && n != ROOT {
      assert n in g.home;
      assert Edge(s, g.home[n].0, g.home[n].1);
    }
  }

  // ----- creating -----

  ghost predicate ValidCmd(c: Cmd) { CName(c.name) }

  /** The directory log of `cur` after the new entry, and where the entry lies. */
  lemma AddedEntries(es: Log, name: Name, nr: nat)
    requires UniqueNames(es) && ValidLog(es) && Lookup(es, name) < 0 && CName(name) && nr < TWO_31
    requires Lookup(es, DOT) >= 0 && Lookup(es, DOTDOT) >= 0
    ensures var es', k := Added(es, name, nr), FirstFit(es, name, 0);
      && UniqueNames(es') && ValidLog(es') && name != DOT && name != DOTDOT
      && Lookup(es', DOT) == Lookup(es, DOT) && Lookup(es', DOTDOT) == Lookup(es, DOTDOT)
      && k < |es'| && es'[k] == Entry(name, nr) && |es| <= |es'|
      && (forall j {:trigger es'[j]} :: 0 <= j < |es'| && j != k ==> j < |es| && es'[j] == es[j])
      && (k < |es| ==> !Live(es[k]))
  {
    hide Lookup;
    LookupNone(es, name);
    AddedLookup(es, name, nr, DOT);
    AddedLookup(es, name, nr, DOTDOT);
  }

  /** One entry appears: `s'` is `s` with the new entry `k` for `nr` in `cur`, and perhaps a new directory. */
  ghost predicate Appeared(s: Names, s': Names, k: nat, nr: nat) {
    && Edge(s', s.cur, k) && Target(s', s.cur, k) == nr && !Edge(s, s.cur, k)
    && (forall d: nat, j: nat {:trigger Edge(s', d, j)} :: Edge(s', d, j) <==> Edge(s, d, j) || (d == s.cur && j == k))
    && (forall d: nat, j: nat {:trigger Target(s', d, j)} :: Edge(s, d, j) ==> Target(s', d, j) == Target(s, d, j))
  }

  lemma MadeEdges(s: Names, s': Names, name: Name, nr: nat)
    requires s.cur in s.dirs && nr !in s.dirs && s'.cur == s.cur && CName(name) && nr < TWO_31
    requires var es := s.dirs[s.cur]; UniqueNames(es) && ValidLog(es) && Lookup(es, name) < 0 && Lookup(es, DOT) >= 0 && Lookup(es, DOTDOT) >= 0
    requires var dirs := s.dirs[s.cur := Added(s.dirs[s.cur], name, nr)];
      s'.dirs == dirs || s'.dirs == dirs[nr := [Entry(DOT, nr), Entry(DOTDOT, s.cur)]]
    ensures Appeared(s, s', FirstFit(s.dirs[s.cur], name, 0), nr)
  {
    hide Lookup, FirstFit, Added, UniqueNames;
    AddedEntries(s.dirs[s.cur], name, nr);
  }

  lemma MadeLogs(s: Names, s': Names, name: Name, nr: nat)
    requires Logs(s) && s.cur in s.dirs && nr !in s.dirs && s.cur < TWO_31 && CName(name) && nr < TWO_31 && Lookup(s.dirs[s.cur], name) < 0
    requires var dirs := s.dirs[s.cur := Added(s.dirs[s.cur], name, nr)];
      s'.dirs == dirs || s'.dirs == dirs[nr := [Entry(DOT, nr), Entry(DOTDOT, s.cur)]]
    ensures Logs(s')
    ensures forall d {:trigger s'.dirs[d]} :: d in s.dirs ==> d in s'.dirs && Lookup(s'.dirs[d], DOTDOT) == Lookup(s.dirs[d], DOTDOT)
  {
    hide Lookup, FirstFit, Added, UniqueNames;
    AddedEntries(s.dirs[s.cur], name, nr);
    NewDirectory(nr, s.cur);
  }

  lemma NewDirectory(nr: nat, parent: nat)
    requires nr < TWO_31 && parent < TWO_31
    ensures var es := [Entry(DOT, nr), Entry(DOTDOT, parent)];
      UniqueNames(es) && ValidLog(es) && Lookup(es, DOT) == nr && Lookup(es, DOTDOT) == parent
  {
    var es := [Entry(DOT, nr), Entry(DOTDOT, parent)];
    LookupIs(es, DOT, 0);
    LookupIs(es, DOTDOT, 1);
  }

  lemma MakeKeeps(s: Names, g: Shape, name: Name, dir: bool, err: int) returns (g': Shape)
    requires Tree(s, g) && CName(name)
    ensures Tree(Make(s, name, dir, err).0, g')
  {
    hide Logs, Homes, Upward, Edge, Lookup, Added, FirstFit;
    g' := g;
    var es := s.dirs[s.cur];
    var nr := FirstFreeInode(Used(s), 0);
    var s' := Make(s, name, dir, err).0;
    if Lookup(es, name) < 0 && nr != NR_INODES && err >= 0 {
      var k := FirstFit(es, name, 0);
      CurrentLog(s);
      RootUsed(s, g);
      NewDirectory(nr, s.cur);
      MadeEdges(s, s', name, nr);
      MadeLogs(s, s', name, nr);
      g' := Shape(g.home[nr := (s.cur, k)], if dir && s.cur in g.depth then g.depth[nr := g.depth[s.cur] + 1] else g.depth);
      assert Used(s') == Used(s) + {nr};
      MadeHomes(s, s', g, g', k, nr);
      MadeUpward(s, s', g, g', k, nr, dir);
    }
  }

  lemma RootUsed(s: Names, g: Shape)
    requires Upward(s, g)
    ensures ROOT in s.dirs
  {}

  lemma CurrentLog(s: Names)
    requires Logs(s) && s.cur in s.dirs
    ensures var es := s.dirs[s.cur]; UniqueNames(es) && ValidLog(es) && Lookup(es, DOT) >= 0 && Lookup(es, DOTDOT) >= 0
  {}

  lemma MadeHomes(s: Names, s': Names, g: Shape, g': Shape, k: nat, nr: nat)
    requires Homes(s, g) && Appeared(s, s', k, nr) && nr !in Used(s) && nr != ROOT && Used(s') == Used(s) + {nr}
    requires g'.home == g.home[nr := (s.cur, k)]
    ensures Homes(s', g')
  {
    hide Edge, Target;
  }

  lemma MadeUpward(s: Names, s': Names, g: Shape, g': Shape, k: nat, nr: nat, dir: bool)
    requires Upward(s, g) && s.cur in s.dirs && nr !in s.dirs && nr != ROOT
    requires g'.home == g.home[nr := (s.cur, k)]
    requires g'.depth == if dir && s.cur in g.depth then g.depth[nr := g.depth[s.cur] + 1] else g.depth
    requires s'.dirs.Keys == s.dirs.Keys + if dir then {nr} else {}
    requires forall d {:trigger s'.dirs[d]} :: d in s.dirs ==> d in s'.dirs && Lookup(s'.dirs[d], DOTDOT) == Lookup(s.dirs[d], DOTDOT)
    requires dir ==> Lookup(s'.dirs[nr], DOTDOT) == s.cur
    ensures Upward(s', g')
  {
    hide Lookup;
  }

  // ----- removing -----

  lemma RemovedEntries(es: Log, name: Name)
    requires UniqueNames(es) && ValidLog(es) && Lookup(es, name) >= 0 && name != DOT && name != DOTDOT
    ensures var es', k := Removed(es, name), FirstLive(es, name, 0);
      && UniqueNames(es') && ValidLog(es')
      && Lookup(es', DOT) == Lookup(es, DOT) && Lookup(es', DOTDOT) == Lookup(es, DOTDOT)
      && k < |es| == |es'| && Live(es[k]) && !Live(es'[k]) && es[k].nr == Lookup(es, name) && es[k].name == name
      && (forall j {:trigger es'[j]} :: 0 <= j < |es'| && j != k ==> es'[j] == es[j])
  {
    RemovedLookup(es, name, DOT);
    RemovedLookup(es, name, DOTDOT);
  }

  /** One entry disappears: entry `k` of `cur`, which named `t`. */
  ghost predicate Disappeared(s: Names, s': Names, k: nat, t: nat) {
    && Edge(s, s.cur, k) && Target(s, s.cur, k) == t
    && (forall d: nat, j: nat {:trigger Edge(s', d, j)} :: Edge(s', d, j) <==> Edge(s, d, j) && !(d == s.cur && j == k))
    && (forall d: nat, j: nat {:trigger Target(s', d, j)} :: Edge(s', d, j) ==> Target(s', d, j) == Target(s, d, j))
  }

  lemma UnlinkedEdges(s: Names, s': Names, name: Name, t: nat)
    requires s.cur in s.dirs && s'.cur == s.cur && t != s.cur && name != DOT && name != DOTDOT
    requires var es := s.dirs[s.cur]; UniqueNames(es) && ValidLog(es) && Lookup(es, name) == t
    requires t in s.dirs ==> EmptyLog(s.dirs[t])
    requires s'.dirs == s.dirs[s.cur := Removed(s.dirs[s.cur], name)] - {t}
    ensures Disappeared(s, s', FirstLive(s.dirs[s.cur], name, 0), t)
  {
    hide Lookup, FirstLive, Removed, UniqueNames;
    RemovedEntries(s.dirs[s.cur], name);
  }

  lemma UnlinkedLogs(s: Names, s': Names, name: Name, t: nat)
    requires Logs(s) && s.cur in s.dirs && t != s.cur && name != DOT && name != DOTDOT && Lookup(s.dirs[s.cur], name) == t
    requires s'.dirs == s.dirs[s.cur := Removed(s.dirs[s.cur], name)] - {t}
    ensures Logs(s')
    ensures forall d {:trigger s'.dirs[d]} :: d in s.dirs && d != t ==> d in s'.dirs && Lookup(s'.dirs[d], DOTDOT) == Lookup(s.dirs[d], DOTDOT)
  {
    hide Lookup, FirstLive, Removed, UniqueNames;
    RemovedEntries(s.dirs[s.cur], name);
  }

  /** A child is not the directory that names it: so the current directory is never removed. */
  lemma ChildIsOther(s: Names, g: Shape, d: nat, k: nat)
    requires Tree(s, g) && Edge(s, d, k)
    ensures Target(s, d, k) != d && Target(s, d, k) != ROOT && Target(s, d, k) in Used(s)
  {
    hide Target, Lookup, Logs;
  }

  lemma EdgeByName(s: Names, name: Name)
    requires s.cur in s.dirs && Lookup(s.dirs[s.cur], name) >= 0 && name != DOT && name != DOTDOT
    ensures var k := FirstLive(s.dirs[s.cur], name, 0); Edge(s, s.cur, k) && Target(s, s.cur, k) == Lookup(s.dirs[s.cur], name)
  {}

  lemma UnlinkKeeps(s: Names, g: Shape, name: Name) returns (g': Shape)
    requires Tree(s, g)
    ensures Tree(Unlink(s, name).0, g')
  {
    hide Logs, Homes, Upward, Edge, Target, Lookup, Removed, FirstLive, EmptyLog;
    g' := g;
    var es := s.dirs[s.cur];
    var t := Lookup(es, name);
    var s' := Unlink(s, name).0;
    if s' != s {
      var k := FirstLive(es, name, 0);
      EdgeByName(s, name);
      ChildIsOther(s, g, s.cur, k);
      CurrentLog(s);
      UnlinkedEdges(s, s', name, t);
      UnlinkedLogs(s, s', name, t);
      g' := Shape(g.home - {t}, g.depth);
      assert Used(s') == Used(s) - {t};
      UnlinkedHomes(s, s', g, g', k, t);
      UnlinkedUpward(s, s', g, g', k, t);
    }
  }

  lemma UnlinkedHomes(s: Names, s': Names, g: Shape, g': Shape, k: nat, t: nat)
    requires Homes(s, g) && Disappeared(s, s', k, t) && Used(s') == Used(s) - {t} && g'.home == g.home - {t}
    ensures Homes(s', g')
  {
    hide Edge, Target;
  }

  lemma UnlinkedUpward(s: Names, s': Names, g: Shape, g': Shape, k: nat, t: nat)
    requires Upward(s, g) && Homes(s', g') && t != ROOT && g' == Shape(g.home - {t}, g.depth)
    requires s'.dirs.Keys == s.dirs.Keys - {t}
    requires forall d {:trigger s'.dirs[d]} :: d in s.dirs && d != t ==> d in s'.dirs && Lookup(s'.dirs[d], DOTDOT) == Lookup(s.dirs[d], DOTDOT)
    ensures Upward(s', g')
  {
    hide Lookup, Target;
  }

  // ----- runs -----

  /** Every command keeps the tree, and none removes the current directory. */
  lemma CommandKeeps(s: Names, g: Shape, c: Cmd) returns (g': Shape)
    requires Tree(s, g) && ValidCmd(c)
    ensures Tree(Run(s, c).0, g') && (c.Cd? || Run(s, c).0.cur == s.cur)
  {
    hide Tree, Make, Unlink, Logs, Homes, Upward, Lookup;
    g' := g;
    match c
    case Create(name, err) => g' := MakeKeeps(s, g, name, false, err); CurrentStays(s, c);
    case Mkdir(name, err) => g' := MakeKeeps(s, g, name, true, err); CurrentStays(s, c);
    case Rm(name) => g' := UnlinkKeeps(s, g, name); CurrentStays(s, c);
    case Cd(name) => EnterKeeps(s, g, name);
  }

  lemma CurrentStays(s: Names, c: Cmd)
    requires !c.Cd?
    ensures Run(s, c).0.cur == s.cur
  {}

  lemma EnterKeeps(s: Names, g: Shape, name: Name)
    requires Tree(s, g)
    ensures Tree(Enter(s, name).0, g)
  {
    hide Lookup, UniqueNames, ValidLog;
    var s' := Enter(s, name).0;
    assert s'.dirs == s.dirs && s'.files == s.files;
    assert forall d: nat, k: nat :: Edge(s', d, k) == Edge(s, d, k) && Target(s', d, k) == Target(s, d, k);
  }

  /** After `mktestfs`: only the root, which is its own parent. */
  function Fresh(): Names {
    Names(map[ROOT := [Entry(DOT, ROOT), Entry(DOTDOT, ROOT)]], {}, ROOT)
  }

  lemma FreshTree()
    ensures Tree(Fresh(), Shape(map[], map[ROOT := 0]))
  {
    NewDirectory(ROOT, ROOT);
  }

  /** The state after the first `n` commands from a given start. */
  function After(s0: Names, cs: seq<Cmd>, n: nat): Names
    requires n <= |cs|
  {
    if n == 0 then s0 else Run(After(s0, cs, n - 1), cs[n - 1]).0
  }

  lemma {:induction false} AfterPrefix(s0: Names, cs: seq<Cmd>, c: Cmd, n: nat)
    requires n <= |cs|
    ensures After(s0, cs + [c], n) == After(s0, cs, n)
  {
    hide Run;
    if n > 0 { AfterPrefix(s0, cs, c, n - 1); }
  }

  lemma AfterOneMore(s0: Names, cs: seq<Cmd>, c: Cmd)
    ensures After(s0, cs + [c], |cs| + 1) == Run(After(s0, cs, |cs|), c).0
  {
    hide Run;
    AfterPrefix(s0, cs, c, |cs|);
    assert (cs + [c])[|cs|] == c;
  }

  /** The names form a tree in every state of every session that starts with one, and the current directory is
      in it. */
  lemma {:induction false} SessionKeepsTree(s0: Names, g0: Shape, cs: seq<Cmd>, n: nat) returns (g: Shape)
    requires Tree(s0, g0) && n <= |cs| && forall i :: 0 <= i < n ==> ValidCmd(cs[i])
    ensures Tree(After(s0, cs, n), g)
  {
    hide Tree, Run;
    g := g0;
    if n > 0 {
      g := SessionKeepsTree(s0, g0, cs, n - 1);
      g := CommandKeeps(After(s0, cs, n - 1), g, cs[n - 1]);
    }
  }

  /** What a name in the current directory leads to is in use, and only `.` and `..` may lead back. */
  lemma TargetKnown(s: Names, g: Shape, name: Name)
    requires Tree(s, g) && Lookup(s.dirs[s.cur], name) >= 0
    ensures var t := Lookup(s.dirs[s.cur], name); t in Used(s) && (name != DOT && name != DOTDOT ==> t != s.cur)
  {
    hide Lookup, FirstLive, Edge, Target;
    if name == DOTDOT {
      if s.cur != ROOT { ParentEntry(s, g, s.cur); }
    } else if name != DOT {
      EdgeByName(s, name);
      ChildIsOther(s, g, s.cur, FirstLive(s.dirs[s.cur], name, 0));
    }
  }

  // ----- pwd -----

  /** Walking down from directory `d` by name. */
  function Resolve(s: Names, d: nat, path: seq<Name>): int
    decreases |path|
  {
    if path == [] then d
    else
      var t := Lookup(LogOf(s, d), path[0]);
      if t < 0 then t else Resolve(s, t, path[1..])
  }

  function Depth(g: Shape, n: nat): nat { if n in g.depth then g.depth[n] else 0 }

  /** A path as it is printed. */
  function Printed(path: seq<Name>): seq<byte> {
    if path == [] then [SLASH]
    else Printed(path[..|path| - 1]) + (if |path| == 1 then [] else [SLASH]) + path[|path| - 1]
  }

  const SLASH: byte := 47

  lemma {:induction false} ResolveOneMore(s: Names, d: nat, path: seq<Name>, name: Name)
    requires Resolve(s, d, path) >= 0
    ensures Resolve(s, d, path + [name]) == Lookup(LogOf(s, Resolve(s, d, path)), name)
    decreases |path|
  {
    hide Lookup;
    if path == [] {
      assert ([] + [name])[1..] == [];
    } else {
      assert (path + [name])[1..] == path[1..] + [name];
      ResolveOneMore(s, Lookup(LogOf(s, d), path[0]), path[1..], name);
    }
  }

  /** In the parent of `n`, the first entry with the number `n` is the one that names it. */
  lemma ParentEntry(s: Names, g: Shape, n: nat)
    requires Tree(s, g) && n in s.dirs && n != ROOT
    ensures var p := Lookup(s.dirs[n], DOTDOT);
      && p in s.dirs && p != n && n in g.depth && p in g.depth && g.depth[p] < g.depth[n]
      && var k := FirstWithNr(s.dirs[p], n, 0);
         k < |s.dirs[p]| && Lookup(s.dirs[p], s.dirs[p][k].name) == n
  {
    hide Lookup, FirstWithNr, FirstLive;
    assert n in Used(s) && n in g.home;
    var (p, h) := g.home[n];
    assert s.dirs[n] == s.dirs[n] && Edge(s, p, h);
    assert UniqueNames(s.dirs[p]);
    var k := FirstWithNr(s.dirs[p], n, 0);
    assert k <= h;
    LookupIs(s.dirs[p], s.dirs[p][k].name, k);
  }

  lemma ResolveRoot(s: Names)
    ensures Resolve(s, ROOT, []) == ROOT && Printed([]) == [SLASH]
  {}

  lemma PrintedOneMore(path: seq<Name>, name: Name)
    ensures Printed(path + [name]) == Printed(path) + (if path == [] then [] else [SLASH]) + name
  {
    assert (path + [name])[..|path|] == path;
  }

  /** `..` always exists, and only the root is its own parent. */
  lemma ParentNumber(s: Names, g: Shape, n: nat)
    requires Tree(s, g) && n in s.dirs
    ensures Lookup(s.dirs[n], DOTDOT) >= 0 && (Lookup(s.dirs[n], DOTDOT) == n <==> n == ROOT)
  {
    hide Lookup;
    if n != ROOT { ParentEntry(s, g, n); }
  }
}
