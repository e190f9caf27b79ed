/** The outer loop of fork.c: what holds between two directory entries. */
module ForkLoop {
  import opened Basics
  import opened Paging
  import opened SharedMemory
  import opened CowKernel
  import opened AddressSpaces
  import opened Fork

  /** What a `Snap` holds when `sys_fork` was called, with the process table; process `cur` called,
      its directory is `dir`. */
  datatype Before = Before(mem: seq<Page>, mmap: seq<bool>, role: map<nat, Role>, locs: set<Loc>, groups: map<nat, seq<Loc>>,
                           st: seq<Status>, pde: seq<nat>, cur: nat, dir: nat)

  ghost predicate TableCopied(m0: seq<Page>, ct: nat, m: seq<Page>, nt: nat, i: nat)
    requires IsTable(m0, ct) && IsTable(m, nt)
  {
    forall j :: 0 <= j < ENTRIES ==> Copied(m0, ct, m, nt, i, j)
  }

  /** Child directory `nd`, below entry `i`, has its own copies of the tables of `d`. */
  ghost predicate ChildDir(was: Before, m: seq<Page>, nd: nat, role: map<nat, Role>, c: nat, i: nat)
    requires IsTable(was.mem, was.dir) && IsTable(m, nd) && i <= ENTRIES
  {
    && (forall q :: 0 <= q < ENTRIES && (q < USEPAGE || i <= q) ==> Entry(m, Loc(nd, q)) == Entry(was.mem, Loc(was.dir, q)))
    && (forall q :: USEPAGE <= q < i ==> DirEntryCopied(was, m, nd, role, c, q))
  }

  ghost predicate DirEntryCopied(was: Before, m: seq<Page>, nd: nat, role: map<nat, Role>, c: nat, q: nat)
    requires IsTable(was.mem, was.dir) && IsTable(m, nd) && q < ENTRIES
  {
    var e, f := Entry(was.mem, Loc(was.dir, q)), Entry(m, Loc(nd, q));
    && f.P == e.P && f.US == e.US && f.RW == e.RW
    && (e.P ==>
          && IsTable(was.mem, e.base) && IsTable(m, f.base)
          && f.base in role && f.base !in was.role && role[f.base] == Tab(c, q)
          && TableCopied(was.mem, e.base, m, f.base, q))
  }

  /** The frames that got a role are the child's directory and its tables below `i`. */
  ghost predicate RolesGrow(was: Before, m: seq<Page>, nd: nat, role: map<nat, Role>, c: nat, i: nat)
    requires IsTable(m, nd) && i <= ENTRIES && |was.mmap| == |m|
  {
    && nd !in was.role && nd in role && role[nd] == Dir(c)
    && (forall t :: t in role && t !in was.role ==> t < |m| && was.mmap[t])
    && (forall t :: t in was.role ==> t in role && role[t] == was.role[t])
    && (forall t :: t in role && t !in was.role && t != nd ==>
          && role[t].Tab? && role[t].pid == c && USEPAGE <= role[t].dir < i
          && Entry(m, Loc(nd, role[t].dir)).P && Entry(m, Loc(nd, role[t].dir)).base == t)
  }

  /** Tables the loop has not reached are as they were. */
  ghost predicate Ahead(was: Before, m: seq<Page>, i: nat)
    requires IsTable(was.mem, was.dir) && |was.mem| == |m|
  {
    forall q :: USEPAGE <= q < ENTRIES && i <= q && Entry(was.mem, Loc(was.dir, q)).P ==>
      Entry(was.mem, Loc(was.dir, q)).base < |was.mem|
      && m[Entry(was.mem, Loc(was.dir, q)).base] == was.mem[Entry(was.mem, Loc(was.dir, q)).base]
  }

  /** The child's argument page has a frame that was free before the fork. */
  ghost predicate PinfFresh(was: Before, m: seq<Page>, nd: nat, i: nat)
    requires IsTable(m, nd) && |was.mmap| == MAXPAGE
  {
    i > USEPAGE && Entry(m, Loc(nd, USEPAGE)).P ==>
      var t := Entry(m, Loc(nd, USEPAGE)).base;
      IsTable(m, t) && Entry(m, Loc(t, 0)).base < MAXPAGE && was.mmap[Entry(m, Loc(t, 0)).base]
  }

  ghost predicate DirLoop(was: Before, m: seq<Page>, role: map<nat, Role>, locs: set<Loc>, nd: nat, c: nat, i: nat) {
    && |was.mem| == |m| == |was.mmap| == MAXPAGE && USEPAGE <= i <= ENTRIES
    && IsTable(was.mem, was.dir) && IsTable(m, nd)
    && OldKept(was.mem, m, was.role) && DataKept(was.mem, was.mmap, was.role, m)
    && ChildDir(was, m, nd, role, c, i)
    && RolesGrow(was, m, nd, role, c, i)
    && LocsExact(m, role, locs)
    && Ahead(was, m, i)
    && PinfFresh(was, m, nd, i)
  }

  /** Going through one table: `m1` is memory before the child's table `nt` was made
      from the parent's `ct`, `m2` after, with directory entry `i` of the child set. */
  ghost predicate TableStep(s: Snap, m2: seq<Page>, role2: map<nat, Role>, locs2: set<Loc>, ct: nat, nt: nat, nd: nat, c: nat, i: nat)
  {
    && |s.mem| == |m2| == |s.mmap| == MAXPAGE && USEPAGE <= i < ENTRIES
    && IsTable(s.mem, nd) && IsTable(m2, nd) && Entry(s.mem, Loc(nd, i)).P && Entry(s.mem, Loc(nd, i)).base == ct
    && ct in s.role && s.role[ct].Tab? && nt !in s.role && nt != nd && nt < MAXPAGE && s.mmap[nt]
    && role2 == s.role[nt := Tab(c, i)]
    && m2[nd] == Table(s.mem[nd].entries[i := Entry(s.mem, Loc(nd, i)).(base := nt)])
    && IsTable(s.mem, ct) && IsTable(m2, nt) && IsTable(m2, ct)
    && (forall t :: t in s.role ==> IsTable(s.mem, t) && IsTable(m2, t))
    && (forall t :: t in s.role && t != ct && t != nd ==> m2[t] == s.mem[t])
    && (forall q :: 0 <= q < ENTRIES ==> SameMap(s.mem, m2, Loc(ct, q)))
    && TableCopied(s.mem, ct, m2, nt, i)
    && DataKept(s.mem, s.mmap, s.role, m2)
    && LocsGrow(s.locs, m2, locs2, nt, ENTRIES)
    && (i == USEPAGE ==> Entry(m2, Loc(nt, 0)).base < MAXPAGE && s.mmap[Entry(m2, Loc(nt, 0)).base])
  }

  lemma StepOld(was: Before, s: Snap, m2: seq<Page>, role2: map<nat, Role>, locs2: set<Loc>, ct: nat, nt: nat, nd: nat, c: nat, i: nat)
    requires DirLoop(was, s.mem, s.role, s.locs, nd, c, i)
    requires TableStep(s, m2, role2, locs2, ct, nt, nd, c, i)
    requires forall f :: 0 <= f < MAXPAGE && s.mmap[f] ==> was.mmap[f]
    ensures OldKept(was.mem, m2, was.role) && DataKept(was.mem, was.mmap, was.role, m2)
  {
    hide ChildDir, TableCopied, LocsGrow, LocsExact, Ahead, PinfFresh;
    forall t, j | t in was.role && was.role[t].Tab? && 0 <= j < ENTRIES
      ensures SameMap(was.mem, m2, Loc(t, j))
    {
      assert SameMap(was.mem, s.mem, Loc(t, j));
      if t == ct { assert SameMap(s.mem, m2, Loc(ct, j)); }
    }
  }

  lemma StepRoles(was: Before, s: Snap, m2: seq<Page>, role2: map<nat, Role>, locs2: set<Loc>, ct: nat, nt: nat, nd: nat, c: nat, i: nat)
    requires DirLoop(was, s.mem, s.role, s.locs, nd, c, i)
    requires TableStep(s, m2, role2, locs2, ct, nt, nd, c, i)
    requires forall f :: 0 <= f < MAXPAGE && s.mmap[f] ==> was.mmap[f]
    ensures RolesGrow(was, m2, nd, role2, c, i + 1)
  {
    hide ChildDir, TableCopied, Ahead, DataKept, OldKept, LocsExact, LocsGrow, PinfFresh;
  }

  lemma StepLocs(s: Snap, m2: seq<Page>, role2: map<nat, Role>, locs2: set<Loc>, ct: nat, nt: nat, nd: nat, c: nat, i: nat)
    requires LocsExact(s.mem, s.role, s.locs) && TableStep(s, m2, role2, locs2, ct, nt, nd, c, i)
    requires nd in s.role && s.role[nd].Dir?
    ensures LocsExact(m2, role2, locs2)
  {
    hide TableCopied, DataKept;
    forall l: Loc
      ensures l in locs2 <==>
        l.table in role2 && role2[l.table].Tab? && l.entry < ENTRIES && IsTable(m2, l.table) && Entry(m2, l).P
    {
      if l.table == ct && l.entry < ENTRIES { assert SameMap(s.mem, m2, Loc(ct, l.entry)); }
    }
  }

  /** The parent before the fork. */
  ghost predicate Parent(was: Before) {
    && Sharing(was.mem, was.mmap, was.role.Keys, was.locs, was.groups) && Spaces(was.mem, was.role, was.locs, was.st, was.pde)
    && was.cur < MAX_PROCESS && was.st[was.cur] != Unuse && was.dir == was.pde[was.cur]
  }

  /** A present user table of the parent, and its entries. */
  lemma ParentTable(was: Before, q: nat)
    requires Parent(was)
    requires USEPAGE <= q < ENTRIES && IsTable(was.mem, was.dir) && Entry(was.mem, Loc(was.dir, q)).P
    ensures var t := Entry(was.mem, Loc(was.dir, q)).base;
      t in was.role && was.role[t] == Tab(was.cur, q) && IsTable(was.mem, t) && TableReady(was.mem, was.mmap, was.role, was.locs, t)
  {
    var t := Entry(was.mem, Loc(was.dir, q)).base;
    forall j | 0 <= j < ENTRIES && Entry(was.mem, Loc(t, j)).P
      ensures Loc(t, j) in was.locs && var b := Entry(was.mem, Loc(t, j)).base; IsData(was.mem, b) && !was.mmap[b] && b !in was.role
    {
      assert EntryOk(was.mem, was.mmap, was.role.Keys, was.groups, Loc(t, j));
    }
  }

  /** A copied table stays copied while its frames and its own entries are kept. */
  lemma CopyLasts(m0: seq<Page>, ct: nat, s: Snap, m2: seq<Page>, t: nat, q: nat)
    requires IsTable(m0, ct) && IsTable(s.mem, t) && TableCopied(m0, ct, s.mem, t, q)
    requires Sharing(s.mem, s.mmap, s.role.Keys, s.locs, s.groups) && LocsExact(s.mem, s.role, s.locs)
    requires t in s.role && s.role[t].Tab? && |m2| == |s.mem| && m2[t] == s.mem[t] && DataKept(s.mem, s.mmap, s.role, m2)
    ensures TableCopied(m0, ct, m2, t, q)
  {
    forall j | 0 <= j < ENTRIES
      ensures Copied(m0, ct, m2, t, q, j)
    {
      assert Copied(m0, ct, s.mem, t, q, j);
      if Entry(s.mem, Loc(t, j)).P {
        assert EntryOk(s.mem, s.mmap, s.role.Keys, s.groups, Loc(t, j));
      }
    }
  }

  /** A copy of the parent's table as it is now is a copy of it as it was. */
  lemma CopySinceStart(was: Before, ct: nat, m1: seq<Page>, m2: seq<Page>, nt: nat, q: nat)
    requires |was.mem| == |m1| == |was.mmap| && IsTable(was.mem, ct) && m1[ct] == was.mem[ct]
      && TableReady(was.mem, was.mmap, was.role, was.locs, ct)
    requires DataKept(was.mem, was.mmap, was.role, m1) && IsTable(m2, nt) && TableCopied(m1, ct, m2, nt, q)
    ensures TableCopied(was.mem, ct, m2, nt, q)
  {
    forall j | 0 <= j < ENTRIES
      ensures Copied(was.mem, ct, m2, nt, q, j)
    {
      assert Copied(m1, ct, m2, nt, q, j);
    }
  }

  lemma StepChild(was: Before, s: Snap, m2: seq<Page>, role2: map<nat, Role>, locs2: set<Loc>, ct: nat, nt: nat, nd: nat, c: nat, i: nat)
    requires Parent(was)
    requires DirLoop(was, s.mem, s.role, s.locs, nd, c, i)
    requires Sharing(s.mem, s.mmap, s.role.Keys, s.locs, s.groups)
    requires TableStep(s, m2, role2, locs2, ct, nt, nd, c, i)
    ensures ChildDir(was, m2, nd, role2, c, i + 1)
  {
    hide Sharing, Spaces, LocsGrow, LocsExact, Ahead, PinfFresh, DataKept, TableCopied, TableReady, OldKept;
    assert Entry(s.mem, Loc(nd, i)) == Entry(was.mem, Loc(was.dir, i));
    ParentTable(was, i);
    forall q | USEPAGE <= q < i + 1
      ensures DirEntryCopied(was, m2, nd, role2, c, q)
    {
      if q < i {
        assert DirEntryCopied(was, s.mem, nd, s.role, c, q);
        if Entry(was.mem, Loc(was.dir, q)).P {
          CopyLasts(was.mem, Entry(was.mem, Loc(was.dir, q)).base, s, m2, Entry(s.mem, Loc(nd, q)).base, q);
        }
      } else {
        AheadAt(was, s.mem, i);
        CopySinceStart(was, ct, s.mem, m2, nt, i);
      }
    }
  }

  lemma AheadAt(was: Before, m: seq<Page>, i: nat)
    requires IsTable(was.mem, was.dir) && |was.mem| == |m| && Ahead(was, m, i)
    requires USEPAGE <= i < ENTRIES && Entry(was.mem, Loc(was.dir, i)).P
    ensures var t := Entry(was.mem, Loc(was.dir, i)).base; t < |m| && m[t] == was.mem[t]
  {
  }

  lemma StepAhead(was: Before, s: Snap, m2: seq<Page>, role2: map<nat, Role>, locs2: set<Loc>, ct: nat, nt: nat, nd: nat, c: nat, i: nat)
    requires Parent(was)
    requires DirLoop(was, s.mem, s.role, s.locs, nd, c, i)
    requires TableStep(s, m2, role2, locs2, ct, nt, nd, c, i)
    requires forall f :: 0 <= f < MAXPAGE && s.mmap[f] ==> was.mmap[f]
    ensures Ahead(was, m2, i + 1) && PinfFresh(was, m2, nd, i + 1)
  {
    hide Sharing, Spaces, LocsGrow, LocsExact, DataKept, TableCopied, TableReady, OldKept;
    assert Entry(s.mem, Loc(nd, i)) == Entry(was.mem, Loc(was.dir, i));
    ParentTable(was, i);
    forall q | i + 1 <= q < ENTRIES && Entry(was.mem, Loc(was.dir, q)).P
      ensures Entry(was.mem, Loc(was.dir, q)).base < |was.mem|
        && m2[Entry(was.mem, Loc(was.dir, q)).base] == was.mem[Entry(was.mem, Loc(was.dir, q)).base]
    {
      ParentTable(was, q);
    }
    if i > USEPAGE {
      assert DirEntryCopied(was, s.mem, nd, s.role, c, USEPAGE);
      assert Entry(m2, Loc(nd, USEPAGE)) == Entry(s.mem, Loc(nd, USEPAGE));
    }
  }

  lemma ChildIsDir(was: Before, m: seq<Page>, nd: nat, role: map<nat, Role>, c: nat, i: nat)
    requires IsTable(m, nd) && i <= ENTRIES && |was.mmap| == |m| && RolesGrow(was, m, nd, role, c, i)
    ensures nd in role && role[nd] == Dir(c)
  {
  }

  /** One turn of the loop. */
  lemma TableStepKeeps(was: Before, s: Snap, m2: seq<Page>, role2: map<nat, Role>, locs2: set<Loc>, ct: nat, nt: nat, nd: nat, c: nat,
                       i: nat)
    requires Parent(was)
    requires DirLoop(was, s.mem, s.role, s.locs, nd, c, i)
    requires Sharing(s.mem, s.mmap, s.role.Keys, s.locs, s.groups)
    requires TableStep(s, m2, role2, locs2, ct, nt, nd, c, i)
    requires forall f :: 0 <= f < MAXPAGE && s.mmap[f] ==> was.mmap[f]
    ensures DirLoop(was, m2, role2, locs2, nd, c, i + 1)
  {
    hide Sharing, Parent, OldKept, DataKept, ChildDir, RolesGrow, LocsExact, Ahead, PinfFresh, TableCopied, LocsGrow;
    StepOld(was, s, m2, role2, locs2, ct, nt, nd, c, i);
    StepRoles(was, s, m2, role2, locs2, ct, nt, nd, c, i);
    ChildIsDir(was, s.mem, nd, s.role, c, i);
    StepLocs(s, m2, role2, locs2, ct, nt, nd, c, i);
    StepChild(was, s, m2, role2, locs2, ct, nt, nd, c, i);
    StepAhead(was, s, m2, role2, locs2, ct, nt, nd, c, i);
  }

  /** A directory entry that maps no table is passed over. */
  lemma SkipKeeps(was: Before, m: seq<Page>, role: map<nat, Role>, locs: set<Loc>, nd: nat, c: nat, i: nat)
    requires DirLoop(was, m, role, locs, nd, c, i) && i < ENTRIES && !Entry(was.mem, Loc(was.dir, i)).P
    ensures DirLoop(was, m, role, locs, nd, c, i + 1)
  {
    hide OldKept, DataKept, LocsExact, TableCopied;
  }
}
