/** What each command does to the names, said by which name leads where, and laws that join commands. */
module NamespaceLaws {
  import opened Layout
  import opened Dirents
  import opened FileSystem
  import opened Namespace

  /** In directory `d`, the live entry `name` has number `n`. */
  ghost predicate Leads(s: Names, d: nat, name: Name, n: nat) {
    d in s.dirs && exists k :: 0 <= k < |s.dirs[d]| && s.dirs[d][k] == Entry(name, n)
  }

  ghost predicate Absent(s: Names, d: nat, name: Name) {
    forall n: nat :: !Leads(s, d, name, n)
  }

  /** Directory `d` has a live entry besides `.` and `..`. */
  ghost predicate NamesSomething(s: Names, d: nat) {
    exists name, n: nat :: name != DOT && name != DOTDOT && Leads(s, d, name, n)
  }

  lemma LeadsIs(s: Names, d: nat, name: Name, n: nat)
    requires Logs(s)
    ensures Leads(s, d, name, n) <==> d in s.dirs && Lookup(s.dirs[d], name) == n
  {
    hide Lookup, FirstLive, ValidLog;
    if d in s.dirs {
      var es := s.dirs[d];
      assert UniqueNames(es);
      FoundIs(es, name);
      if Leads(s, d, name, n) {
        var k :| 0 <= k < |es| && es[k] == Entry(name, n);
        LookupIs(es, name, k);
      }
    }
  }

  lemma FoundIs(es: Log, name: Name)
    ensures if Lookup(es, name) >= 0 then exists k :: 0 <= k < |es| && es[k] == Entry(name, Lookup(es, name))
            else Lookup(es, name) == ENOENT && forall k :: 0 <= k < |es| && Live(es[k]) ==> es[k].name != name
  {
    var k := FirstLive(es, name, 0);
    if k < |es| { assert es[k] == Entry(name, Lookup(es, name)); }
  }

  lemma AbsentIs(s: Names, d: nat, name: Name)
    requires Logs(s)
    ensures Absent(s, d, name) <==> d !in s.dirs || Lookup(s.dirs[d], name) == ENOENT
  {
    hide Lookup, Logs, Leads;
    forall n: nat { LeadsIs(s, d, name, n); }
    if d in s.dirs {
      FoundIs(s.dirs[d], name);
      if Lookup(s.dirs[d], name) >= 0 { assert Leads(s, d, name, Lookup(s.dirs[d], name)); }
    }
  }

  lemma SomethingIs(s: Names, d: nat)
    requires Logs(s) && d in s.dirs
    ensures NamesSomething(s, d) <==> !EmptyLog(s.dirs[d])
  {
    var es := s.dirs[d];
    if !EmptyLog(es) {
      var k :| 0 <= k < |es| && Live(es[k]) && es[k].name != DOT && es[k].name != DOTDOT;
      assert es[k] == Entry(es[k].name, es[k].nr) && Leads(s, d, es[k].name, es[k].nr);
    }
  }

  lemma TreeLogs(s: Names, g: Shape)
    requires Tree(s, g)
    ensures Logs(s) && s.cur in s.dirs && s.dirs.Keys !! s.files
  {}

  // ----- cd -----

  /** `cd` goes where the name leads, if that is a directory, and changes nothing else. */
  lemma EnterExact(s: Names, g: Shape, name: Name)
    requires Tree(s, g)
    ensures var (s', r) := Enter(s, name);
      && s' == s.(cur := s'.cur)
      && (r == 0 <==> exists n: nat :: n in s.dirs && Leads(s, s.cur, name, n))
      && (r == ENOTDIR <==> exists n: nat :: n in s.files && Leads(s, s.cur, name, n))
      && (r == ENOENT <==> Absent(s, s.cur, name)) && r in {0, ENOTDIR, ENOENT}
      && (if r == 0 then s'.cur in s.dirs && Leads(s, s.cur, name, s'.cur) && s'.cur == Resolve(s, s.cur, [name]) else s' == s)
  {
    hide Tree, Logs, Lookup, Leads, Absent;
    TreeLogs(s, g);
    forall n: nat { LeadsIs(s, s.cur, name, n); }
    AbsentIs(s, s.cur, name);
    FoundIs(s.dirs[s.cur], name);
    var t := Lookup(s.dirs[s.cur], name);
    if t >= 0 {
      TargetKnown(s, g, name);
      assert [name][1..] == [] && Resolve(s, t, []) == t;
    }
  }

  /** `..` leads back from where a name leads. */
  lemma EnterAndBack(s: Names, g: Shape, name: Name)
    requires Tree(s, g) && name != DOT && name != DOTDOT && Enter(s, name).1 == 0
    ensures Enter(Enter(s, name).0, DOTDOT) == (s, 0)
  {
    hide Tree, Logs, Lookup, FirstLive, Edge, Target;
    TreeLogs(s, g);
    EdgeByName(s, name);
    OneName(s, g, Lookup(s.dirs[s.cur], name));
  }

  // ----- rm -----

  /** `rm` refuses `.` and `..`, a name that is not there, and a directory in which something is named, and then
      changes nothing. Otherwise exactly that name and the inode it led to are gone. */
  lemma UnlinkExact(s: Names, g: Shape, name: Name)
    requires Tree(s, g)
    ensures var (s', r) := Unlink(s, name);
      if name == DOT || name == DOTDOT then s' == s && r == EINVAL
      else if Absent(s, s.cur, name) then s' == s && r == ENOENT
      else exists t: nat :: Leads(s, s.cur, name, t) && t in Used(s) && t != s.cur
                            && (if t in s.dirs && NamesSomething(s, t) then s' == s && r == ENOTEMPTY
                                else r == 0 && Gone(s, s', name, t))
  {
    hide Tree, Logs, Lookup, Leads, Absent, EmptyLog, NamesSomething, Gone, Removed;
    TreeLogs(s, g);
    AbsentIs(s, s.cur, name);
    FoundIs(s.dirs[s.cur], name);
    if name != DOT && name != DOTDOT && !Absent(s, s.cur, name) {
      var t := Lookup(s.dirs[s.cur], name);
      LeadsIs(s, s.cur, name, t);
      TargetKnown(s, g, name);
      if t in s.dirs { SomethingIs(s, t); }
      if t !in s.dirs || EmptyLog(s.dirs[t]) { UnlinkedGone(s, g, name, t); }
    }
  }

  /** Of all names in all directories that are left, the one of `cur` is gone, and so is inode `t`. */
  ghost predicate Gone(s: Names, s': Names, name: Name, t: nat) {
    && s'.cur == s.cur && s'.dirs.Keys == s.dirs.Keys - {t} && s'.files == s.files - {t}
    && forall d: nat, x: Name, n: nat {:trigger Leads(s', d, x, n)} ::
         Leads(s', d, x, n) <==> Leads(s, d, x, n) && d != t && !(d == s.cur && x == name)
  }

  lemma UnlinkedGone(s: Names, g: Shape, name: Name, t: nat)
    requires Tree(s, g) && t != s.cur && name != DOT && name != DOTDOT && Lookup(s.dirs[s.cur], name) == t
    ensures Gone(s, s.(dirs := s.dirs[s.cur := Removed(s.dirs[s.cur], name)] - {t}, files := s.files - {t}), name, t)
  {
    hide Tree, Logs, Lookup, Leads, Removed, UniqueNames, ValidLog;
    TreeLogs(s, g);
    CurrentLog(s);
    var s' := s.(dirs := s.dirs[s.cur := Removed(s.dirs[s.cur], name)] - {t}, files := s.files - {t});
    UnlinkedLogs(s, s', name, t);
    forall d: nat, x: Name, n: nat ensures Leads(s', d, x, n) <==> Leads(s, d, x, n) && d != t && !(d == s.cur && x == name) {
      LeadsIs(s, d, x, n);
      LeadsIs(s', d, x, n);
      RemovedLookup(s.dirs[s.cur], name, x);
    }
  }

  // ----- create and mkdir -----

  /** `create` and `mkdir` refuse a name that is there, and fail when no inode number is free or no room is left
      (`err`), and then change nothing. Otherwise the least free number is taken for a file or a directory, and
      exactly the new name leads to it; a new directory has its two entries and no others. */
  lemma MakeExact(s: Names, g: Shape, name: Name, dir: bool, err: int)
    requires Tree(s, g) && CName(name)
    ensures var (s', r) := Make(s, name, dir, err);
      if !Absent(s, s.cur, name) then s' == s && r == EEXIST
      else if forall n: nat :: n < NR_INODES ==> n in Used(s) then s' == s && r == ENOSPC
      else if err < 0 then s' == s && r == err
      else r == 0 && exists nr: nat :: LeastFree(s, nr) && Come(s, s', name, nr, dir)
  {
    hide Tree, Logs, Lookup, Leads, Absent, Added, FirstFreeInode, Come;
    TreeLogs(s, g);
    AbsentIs(s, s.cur, name);
    FoundIs(s.dirs[s.cur], name);
    var nr := FirstFreeInode(Used(s), 0);
    if Absent(s, s.cur, name) && nr < NR_INODES && err >= 0 { MadeCome(s, g, name, nr, dir); }
  }

  ghost predicate LeastFree(s: Names, nr: nat) {
    nr < NR_INODES && nr !in Used(s) && forall m: nat :: m < nr ==> m in Used(s)
  }

  /** Of all names in all directories, `name` in `cur` is new, and the entries of a new directory. */
  ghost predicate Come(s: Names, s': Names, name: Name, nr: nat, dir: bool) {
    && s'.cur == s.cur
    && s'.dirs.Keys == s.dirs.Keys + (if dir then {nr} else {}) && s'.files == s.files + (if dir then {} else {nr})
    && forall d: nat, x: Name, n: nat {:trigger Leads(s', d, x, n)} ::
         Leads(s', d, x, n) <==> Leads(s, d, x, n) || (d == s.cur && x == name && n == nr)
                                 || (dir && d == nr && ((x == DOT && n == nr) || (x == DOTDOT && n == s.cur)))
  }

  /** The names with the new one. */
  function WithName(s: Names, name: Name, nr: nat, dir: bool): Names {
    var dirs := s.dirs[s.cur := Added(LogOf(s, s.cur), name, nr)];
    if dir then s.(dirs := dirs[nr := [Entry(DOT, nr), Entry(DOTDOT, s.cur)]]) else s.(dirs := dirs, files := s.files + {nr})
  }

  lemma MadeCome(s: Names, g: Shape, name: Name, nr: nat, dir: bool)
    requires Tree(s, g) && CName(name) && Lookup(s.dirs[s.cur], name) == ENOENT && nr !in Used(s) && nr < NR_INODES
    ensures Come(s, WithName(s, name, nr, dir), name, nr, dir)
  {
    hide Tree, Logs, Lookup, Leads, Added, UniqueNames, ValidLog;
    TreeLogs(s, g);
    CurrentLog(s);
    CurrentSmall(s, g);
    var s' := WithName(s, name, nr, dir);
    MadeLogs(s, s', name, nr);
    NewDirectory(nr, s.cur);
    forall d: nat, x: Name, n: nat
      ensures Leads(s', d, x, n) <==> Leads(s, d, x, n) || (d == s.cur && x == name && n == nr)
                                      || (dir && d == nr && ((x == DOT && n == nr) || (x == DOTDOT && n == s.cur))) {
      LeadsIs(s, d, x, n);
      LeadsIs(s', d, x, n);
      AddedLookup(s.dirs[s.cur], name, nr, x);
      NewLookup(nr, s.cur, x);
    }
  }

  lemma NewLookup(nr: nat, parent: nat, x: Name)
    requires nr < TWO_31 && parent < TWO_31
    ensures Lookup([Entry(DOT, nr), Entry(DOTDOT, parent)], x) == if x == DOT then nr else if x == DOTDOT then parent else ENOENT
  {
    hide Lookup;
    var es := [Entry(DOT, nr), Entry(DOTDOT, parent)];
    NewDirectory(nr, parent);
    FoundIs(es, x);
  }

  lemma CurrentSmall(s: Names, g: Shape)
    requires Tree(s, g)
    ensures s.cur < NR_INODES < TWO_31
  {
    hide Logs, Homes, Upward;
    assert s.cur in Used(s);
  }

  // ----- all commands -----

  /** A command that fails changes nothing. One that succeeds: `create` makes a file and `mkdir` a directory, under
      the name and with the least free number; `rm` takes the name and what it led to away; and `cd` goes to where
      the name leads. */
  lemma CommandExact(s: Names, g: Shape, c: Cmd)
    requires Tree(s, g) && ValidCmd(c)
    ensures var (s', r) := Run(s, c);
      if r != 0 then s' == s && r < 0
      else match c
        case Create(name, err) => exists nr: nat :: LeastFree(s, nr) && Come(s, s', name, nr, false)
        case Mkdir(name, err) => exists nr: nat :: LeastFree(s, nr) && Come(s, s', name, nr, true)
        case Rm(name) => exists t: nat :: Leads(s, s.cur, name, t) && t in Used(s) && t != s.cur && Gone(s, s', name, t)
        case Cd(name) => Leads(s, s.cur, name, s'.cur) && s'.cur in s.dirs && s' == s.(cur := s'.cur)
  {
    hide Tree, Make, Unlink, Enter, Leads, Absent, NamesSomething, Come, Gone, LeastFree;
    match c
    case Create(name, err) => MakeExact(s, g, name, false, err);
    case Mkdir(name, err) => MakeExact(s, g, name, true, err);
    case Rm(name) => UnlinkExact(s, g, name);
    case Cd(name) => EnterExact(s, g, name);
  }

  // ----- laws -----

  /** The two namings have the same inodes, the same names leading to the same places, and the same current
      directory; only tombstones may differ. */
  ghost predicate SameNames(s: Names, s': Names) {
    && s'.cur == s.cur && s'.dirs.Keys == s.dirs.Keys && s'.files == s.files
    && forall d: nat, x: Name, n: nat {:trigger Leads(s', d, x, n)} :: Leads(s', d, x, n) <==> Leads(s, d, x, n)
  }

  /** Whatever is absent from a directory of a tree is not one of the two names that every directory has. */
  lemma AbsentOther(s: Names, g: Shape, name: Name)
    requires Tree(s, g) && Absent(s, s.cur, name)
    ensures name != DOT && name != DOTDOT
  {
    hide Homes, Upward, Lookup, Absent, UniqueNames;
    AbsentIs(s, s.cur, name);
  }

  lemma MadeLeads(s: Names, s': Names, name: Name, nr: nat, dir: bool)
    requires Come(s, s', name, nr, dir) && Absent(s, s.cur, name) && s.cur in s.dirs && nr !in Used(s)
    ensures forall t: nat :: Leads(s', s.cur, name, t) <==> t == nr
    ensures !Absent(s', s.cur, name) && !NamesSomething(s', nr)
  {
    assert Leads(s', s.cur, name, nr);
  }

  lemma UndoneMake(s: Names, s1: Names, s': Names, name: Name, nr: nat, dir: bool)
    requires Come(s, s1, name, nr, dir) && Gone(s1, s', name, nr) && Absent(s, s.cur, name) && nr !in Used(s)
    ensures SameNames(s, s')
  {
    assert forall d: nat, x: Name, n: nat :: Leads(s, d, x, n) ==> d in s.dirs;
  }

  lemma UndoneUnlink(s: Names, s1: Names, s': Names, name: Name, t: nat)
    requires Gone(s, s1, name, t) && Come(s1, s', name, t, false) && t in s.files && t !in s.dirs
    requires forall n: nat :: Leads(s, s.cur, name, n) ==> n == t
    requires Leads(s, s.cur, name, t)
    ensures SameNames(s, s')
  {
    assert forall d: nat, x: Name, n: nat :: Leads(s, d, x, n) ==> d in s.dirs;
  }

  /** `rm` undoes `create` and `mkdir`. */
  lemma UnlinkUndoesMake(s: Names, g: Shape, name: Name, dir: bool)
    requires Tree(s, g) && CName(name) && Make(s, name, dir, 0).1 == 0
    ensures var (s', r) := Unlink(Make(s, name, dir, 0).0, name); r == 0 && SameNames(s, s')
  {
    hide Tree, Leads, Make, Unlink, Absent, Come, Gone, NamesSomething, SameNames;
    var s1 := Make(s, name, dir, 0).0;
    var g1 := MakeKeeps(s, g, name, dir, 0);
    MakeExact(s, g, name, dir, 0);
    TreeLogs(s, g);
    var nr: nat :| LeastFree(s, nr) && Come(s, s1, name, nr, dir);
    ComeStays(s, s1, name, nr, dir);
    AbsentOther(s, g, name);
    MadeLeads(s, s1, name, nr, dir);
    UnlinkExact(s1, g1, name);
    UndoneMake(s, s1, Unlink(s1, name).0, name, nr, dir);
  }

  lemma ComeStays(s: Names, s': Names, name: Name, nr: nat, dir: bool)
    requires Come(s, s', name, nr, dir)
    ensures s'.cur == s.cur && Used(s') == Used(s) + {nr}
  {}

  lemma GoneStays(s: Names, s': Names, name: Name, t: nat)
    requires Gone(s, s', name, t)
    ensures s'.cur == s.cur && s'.files == s.files - {t} && Used(s') == Used(s) - {t}
    ensures Absent(s', s.cur, name)
  {}

  lemma LeadsOnce(s: Names, name: Name, t: nat)
    requires Logs(s) && Leads(s, s.cur, name, t)
    ensures !Absent(s, s.cur, name) && forall n: nat :: Leads(s, s.cur, name, n) ==> n == t
  {
    hide Logs, Leads, Lookup;
    forall n: nat { LeadsIs(s, s.cur, name, n); }
  }

  /** A file that has been removed can be made again, and everything is as it was if and only if its number was
      the least one free but for itself. */
  lemma MakeUndoesUnlink(s: Names, g: Shape, name: Name, t: nat)
    requires Tree(s, g) && CName(name) && Leads(s, s.cur, name, t) && t in s.files && Unlink(s, name).1 == 0
    ensures var (s', r) := Make(Unlink(s, name).0, name, false, 0);
      r == 0 && ((forall m: nat :: m < t ==> m in Used(s)) <==> SameNames(s, s'))
  {
    hide Tree, Logs, Leads, Make, Unlink, Absent, Come, Gone, NamesSomething, SameNames;
    var s1 := Unlink(s, name).0;
    var g1 := UnlinkKeeps(s, g, name);
    TreeLogs(s, g);
    LeadsOnce(s, name, t);
    UnlinkExact(s, g, name);
    GoneStays(s, s1, name, t);
    UsedSmall(s, g, t);
    MakeExact(s1, g1, name, false, 0);
    var s' := Make(s1, name, false, 0).0;
    var nr: nat :| LeastFree(s1, nr) && Come(s1, s', name, nr, false);
    LeastIs(Used(s), Used(s1), nr, t);
    if nr == t { UndoneUnlink(s, s1, s', name, t); } else { OtherFile(s, s1, s', name, t, nr); }
  }

  lemma LeastIs(used: set<nat>, left: set<nat>, nr: nat, t: nat)
    requires left == used - {t} && nr !in left && forall m: nat :: m < nr ==> m in left
    ensures nr == t <==> forall m: nat :: m < t ==> m in used
  {
    assert t !in left && nr <= t;
    if nr < t { assert nr !in used; }
    forall m: nat | nr == t && m < t ensures m in used { assert m in left; }
  }

  lemma UsedSmall(s: Names, g: Shape, n: nat)
    requires Tree(s, g) && n in Used(s)
    ensures n < NR_INODES
  {
    hide Logs, Homes, Upward;
  }

  lemma OtherFile(s: Names, s1: Names, s': Names, name: Name, t: nat, nr: nat)
    requires Come(s1, s', name, nr, false) && s1.files == s.files - {t} && t in s.files && nr != t
    ensures !SameNames(s, s')
  {
    assert t !in s'.files;
  }
}
