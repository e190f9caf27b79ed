/** fork.c `sys_fork` as a whole. */
module ForkCall {
  import opened Basics
  import opened Paging
  import opened PageShareList
  import opened SharedMemory
  import opened CowKernel
  import opened AddressSpaces
  import opened Fork
  import opened ForkLoop
  import opened ForkDone

  /** The state between the loop and the return, seen from the values before the call. */
  ghost predicate Finishing(was: Before, s: Snap, nd: nat, c: nat, m3: seq<Page>, f: nat)
  {
    && Parent(was)
    && DirLoop(was, s.mem, s.role, s.locs, nd, c, ENTRIES)
    && Sharing(s.mem, s.mmap, s.role.Keys, s.locs, s.groups)
    && (forall h :: 0 <= h < MAXPAGE && s.mmap[h] ==> was.mmap[h])
    && f < MAXPAGE && s.mmap[f]
    && PrivatePage(was.mem, was.dir, USEENDP, USEENDP) && Entry(s.mem, Loc(nd, USEENDP)).P
    && var cl, pl := TabLoc(s.mem, nd, USEENDP, USEENDP), TabLoc(was.mem, was.dir, USEENDP, USEENDP);
      && InTables(s.mem, s.role.Keys, pl) && pl in was.locs && cl.table !in was.role && InTables(s.mem, s.role.Keys, cl)
        && Entry(s.mem, cl).P
      && StackStep(s.mem, m3, s.role, cl, pl, f, Entry(s.mem, pl).base)
  }

  lemma FinishOld(was: Before, s: Snap, nd: nat, c: nat, m3: seq<Page>, f: nat)
    requires Finishing(was, s, nd, c, m3, f)
    ensures OldKept(was.mem, m3, was.role) && DataKept(was.mem, was.mmap, was.role, m3)
  {
    hide Sharing, Spaces, ChildDir, LocsExact, Ahead, PinfFresh;
    var cl := TabLoc(s.mem, nd, USEENDP, USEENDP);
    forall t, j | t in was.role && was.role[t].Tab? && 0 <= j < ENTRIES
      ensures SameMap(was.mem, m3, Loc(t, j))
    {
      assert SameMap(was.mem, s.mem, Loc(t, j)) && EntryLasts(s.mem, m3, Loc(t, j), cl);
    }
  }

  /** The child reads what the parent read before the call. */
  lemma FinishRead(was: Before, s: Snap, nd: nat, c: nat, m3: seq<Page>, f: nat, i: nat, j: nat)
    requires Finishing(was, s, nd, c, m3, f)
    requires USEPAGE <= i < ENTRIES && j < ENTRIES
    ensures Read(m3, nd, i, j) == Read(was.mem, was.dir, i, j)
  {
    hide Spaces, OldKept, Ahead, PinfFresh, Tables, Entries, MembersMap, SoleOwner;
    assert DirEntryCopied(was, s.mem, nd, s.role, c, i);
    var cl, pl := TabLoc(s.mem, nd, USEENDP, USEENDP), TabLoc(was.mem, was.dir, USEENDP, USEENDP);
    if Entry(was.mem, Loc(was.dir, i)).P {
      var ct, t := Entry(was.mem, Loc(was.dir, i)).base, Entry(s.mem, Loc(nd, i)).base;
      ParentTable(was, i);
      assert Copied(was.mem, ct, s.mem, t, i, j);
      assert EntryLasts(s.mem, m3, Loc(t, j), cl);
      if Entry(s.mem, Loc(t, j)).P {
        LiveFrame(s, Loc(t, j));
        if Loc(t, j) == cl {
          OwnTable(was, s.mem, s.role, s.locs, nd, c, i);
          assert i == USEENDP && pl == Loc(ct, j);
          assert IsData(was.mem, Entry(was.mem, pl).base);
          StackSource(was, s.mem, s.role, s.locs, nd, c);
        }
      }
    }
  }

  /** And from the same frames, but for the two pages that were copied. */
  lemma FinishShares(was: Before, s: Snap, nd: nat, c: nat, m3: seq<Page>, f: nat, i: nat, j: nat)
    requires Finishing(was, s, nd, c, m3, f)
    requires USEPAGE <= i < ENTRIES && j < ENTRIES && !IsPinf(i, j) && !(i == USEENDP && j == USEENDP)
    ensures FrameOf(m3, nd, i, j) == FrameOf(was.mem, was.dir, i, j)
  {
    hide Spaces, OldKept, Ahead, PinfFresh, Tables, Entries, MembersMap, SoleOwner, Read;
    assert DirEntryCopied(was, s.mem, nd, s.role, c, i);
    var cl := TabLoc(s.mem, nd, USEENDP, USEENDP);
    if Entry(was.mem, Loc(was.dir, i)).P {
      var ct, t := Entry(was.mem, Loc(was.dir, i)).base, Entry(s.mem, Loc(nd, i)).base;
      ParentTable(was, i);
      assert Copied(was.mem, ct, s.mem, t, i, j);
      assert EntryLasts(s.mem, m3, Loc(t, j), cl);
      if Entry(s.mem, Loc(t, j)).P {
        LiveFrame(s, Loc(t, j));
        if t == cl.table { OwnTable(was, s.mem, s.role, s.locs, nd, c, i); }
      }
    }
  }

  lemma LiveFrame(s: Snap, l: Loc)
    requires Sharing(s.mem, s.mmap, s.role.Keys, s.locs, s.groups) && LocsExact(s.mem, s.role, s.locs)
    requires l.table in s.role && s.role[l.table].Tab? && l.entry < ENTRIES && IsTable(s.mem, l.table) && Entry(s.mem, l).P
    ensures var b := Entry(s.mem, l).base; b < MAXPAGE && !s.mmap[b] && b !in s.role
  {
    assert EntryOk(s.mem, s.mmap, s.role.Keys, s.groups, l);
  }

  lemma OwnTable(was: Before, m: seq<Page>, role: map<nat, Role>, locs: set<Loc>, nd: nat, c: nat, i: nat)
    requires DirLoop(was, m, role, locs, nd, c, ENTRIES)
    requires USEPAGE <= i < ENTRIES && Entry(was.mem, Loc(was.dir, i)).P && Entry(was.mem, Loc(was.dir, USEENDP)).P
    requires Entry(m, Loc(nd, i)).base == Entry(m, Loc(nd, USEENDP)).base
    ensures i == USEENDP
  {
    assert DirEntryCopied(was, m, nd, role, c, i) && DirEntryCopied(was, m, nd, role, c, USEENDP);
  }

  lemma StackSource(was: Before, m: seq<Page>, role: map<nat, Role>, locs: set<Loc>, nd: nat, c: nat)
    requires Parent(was)
    requires DirLoop(was, m, role, locs, nd, c, ENTRIES) && PrivatePage(was.mem, was.dir, USEENDP, USEENDP)
    ensures var pl := TabLoc(was.mem, was.dir, USEENDP, USEENDP);
      && IsTable(m, pl.table) && Entry(m, pl).base == Entry(was.mem, pl).base < MAXPAGE
      && m[Entry(m, pl).base] == was.mem[Entry(was.mem, pl).base]
  {
    ParentTable(was, USEENDP);
    assert SameMap(was.mem, m, TabLoc(was.mem, was.dir, USEENDP, USEENDP));
  }

  // ---- the process table afterwards

  lemma FinishProcs(was: Before, s: Snap, nd: nat, c: nat, m3: seq<Page>, f: nat, st': seq<Status>, pde': seq<nat>)
    requires Finishing(was, s, nd, c, m3, f)
    requires c < MAX_PROCESS && was.st[c] == Unuse && st' == was.st[c := Ready] && pde' == was.pde[c := nd]
    ensures Procs(m3, s.role, st', pde')
  {
    hide Sharing, LocsExact, Ahead, PinfFresh, DataKept, TableCopied;
    forall p | 0 <= p < MAX_PROCESS && st'[p] != Unuse
      ensures pde'[p] in s.role && s.role[pde'[p]] == Dir(p) && IsTable(m3, pde'[p]) && DirOwns(m3, s.role, p, pde'[p], ENTRIES)
    {
      if p != c {
        assert was.role[was.pde[p]] == Dir(p) && m3[was.pde[p]] == was.mem[was.pde[p]];
        assert DirOwns(was.mem, was.role, p, was.pde[p], ENTRIES);
      } else {
        assert DirOwns(was.mem, was.role, was.cur, was.dir, ENTRIES);
        forall i | USEPAGE <= i < ENTRIES && Entry(m3, Loc(nd, i)).P
          ensures var e := Entry(m3, Loc(nd, i)); e.US && e.RW && e.base in s.role && s.role[e.base] == Tab(c, i)
        {
          assert DirEntryCopied(was, s.mem, nd, s.role, c, i);
        }
      }
    }
  }

  lemma FinishRoles(was: Before, s: Snap, nd: nat, c: nat, m3: seq<Page>, f: nat, st': seq<Status>, pde': seq<nat>)
    requires Finishing(was, s, nd, c, m3, f)
    requires c < MAX_PROCESS && was.st[c] == Unuse && st' == was.st[c := Ready] && pde' == was.pde[c := nd]
    ensures Roles(m3, s.role, st', pde')
  {
    hide Sharing, Ahead, PinfFresh, DataKept, ChildDir, LocsExact, FixedPages, RolesGrow, OldKept, StackStep, PrivatePage, RoleOk, Roles;
    FinishOld(was, s, nd, c, m3, f);
    assert |st'| == |pde'| == MAX_PROCESS;
    forall t | t in s.role
      ensures RoleOk(m3, s.role[t], t, st', pde')
    {
      if t in was.role {
        OldRole(was, s, nd, c, m3, f, t, st', pde');
      } else {
        NewRole(was, s, nd, c, m3, f, t, st', pde');
      }
    }
    RolesAre(m3, s.role, st', pde');
  }

  lemma RolesAre(m: seq<Page>, role: map<nat, Role>, st: seq<Status>, pde: seq<nat>)
    requires |st| == |pde| == MAX_PROCESS && forall t :: t in role ==> RoleOk(m, role[t], t, st, pde)
    ensures Roles(m, role, st, pde)
  {
  }

  lemma OldRole(was: Before, s: Snap, nd: nat, c: nat, m3: seq<Page>, f: nat, t: nat, st': seq<Status>, pde': seq<nat>)
    requires Finishing(was, s, nd, c, m3, f) && OldKept(was.mem, m3, was.role) && t in was.role
    requires c < MAX_PROCESS && was.st[c] == Unuse && st' == was.st[c := Ready] && pde' == was.pde[c := nd]
    ensures t in s.role && RoleOk(m3, s.role[t], t, st', pde')
  {
    hide Sharing, Ahead, PinfFresh, DataKept, ChildDir, LocsExact, FixedPages, StackStep, PrivatePage, DirOwns;
    assert RoleOk(was.mem, was.role[t], t, was.st, was.pde);
    assert was.role[was.pde[was.role[t].pid]] == Dir(was.role[t].pid);
  }

  lemma NewRole(was: Before, s: Snap, nd: nat, c: nat, m3: seq<Page>, f: nat, t: nat, st': seq<Status>, pde': seq<nat>)
    requires Finishing(was, s, nd, c, m3, f) && t in s.role && t !in was.role
    requires c < MAX_PROCESS && was.st[c] == Unuse && st' == was.st[c := Ready] && pde' == was.pde[c := nd]
    ensures RoleOk(m3, s.role[t], t, st', pde')
  {
    hide Sharing, Ahead, PinfFresh, DataKept, ChildDir, LocsExact, Roles, FixedPages, OldKept, PrivatePage, DirOwns;
  }

  lemma FinishLocs(m: seq<Page>, role: map<nat, Role>, locs: set<Loc>, m3: seq<Page>, cl: Loc, pl: Loc, f: nat, src: nat)
    requires LocsExact(m, role, locs) && StackStep(m, m3, role, cl, pl, f, src)
    ensures LocsExact(m3, role, locs)
  {
    forall l: Loc
      ensures l in locs <==>
        l.table in role && role[l.table].Tab? && l.entry < ENTRIES && IsTable(m3, l.table) && Entry(m3, l).P
    {
      if l.table in role && l.entry < ENTRIES { assert EntryLasts(m, m3, Loc(l.table, l.entry), cl); }
    }
  }

  /** A private page stays private over the last step. */
  lemma PrivateLasts(m: seq<Page>, m3: seq<Page>, role: map<nat, Role>, cl: Loc, pl: Loc, f: nat, src: nat, d: nat, p: nat, i: nat, j: nat)
    requires StackStep(m, m3, role, cl, pl, f, src)
    requires d in role && role[d] == Dir(p) && USEPAGE <= i && PrivatePage(m, d, i, j)
    requires Entry(m, Loc(d, i)).P ==> Entry(m, Loc(d, i)).base in role
    ensures PrivatePage(m3, d, i, j)
  {
    assert EntryLasts(m, m3, Loc(Entry(m, Loc(d, i)).base, j), cl);
  }

  /** The facts about private pages that hold when the loop is done. */
  ghost predicate PrivateNow(m: seq<Page>, st: seq<Status>, pde: seq<nat>, cur: nat, nd: nat)
    requires |st| == |pde| == MAX_PROCESS
  {
    && PrivatePage(m, nd, USEPAGE, 0)
    && (forall p :: 0 <= p < MAX_PROCESS && st[p] != Unuse && st[p] != Deaded ==> PrivatePage(m, pde[p], USEPAGE, 0))
    && (forall p :: 0 <= p < MAX_PROCESS && st[p] != Unuse && p != cur ==> PrivatePage(m, pde[p], USEENDP, USEENDP))
  }

  lemma PrivateAll(k: Kernel, was: Before, nd: nat, c: nat)
    requires Parent(was) && was.st[was.cur] != Deaded
    requires k.Core() && DirLoop(was, k.mem[..], k.role, k.locs, nd, c, ENTRIES)
    ensures PrivateNow(k.mem[..], was.st, was.pde, was.cur, nd)
  {
    hide Wf, Sharing, DirLoop, PrivatePage;
    assert FixedPages(was.mem, was.st[was.cur], was.pde[was.cur]);
    ChildPinfPrivate(k, was, nd, c);
    forall p | 0 <= p < MAX_PROCESS && was.st[p] != Unuse && was.st[p] != Deaded
      ensures PrivatePage(k.mem[..], was.pde[p], USEPAGE, 0)
    {
      assert FixedPages(was.mem, was.st[p], was.pde[p]);
      PrivateStays(k, was, nd, c, p, USEPAGE, 0);
    }
    forall p | 0 <= p < MAX_PROCESS && was.st[p] != Unuse && p != was.cur
      ensures PrivatePage(k.mem[..], was.pde[p], USEENDP, USEENDP)
    {
      assert FixedPages(was.mem, was.st[p], was.pde[p]);
      PrivateStays(k, was, nd, c, p, USEENDP, USEENDP);
    }
  }

  lemma FinishFixed(was: Before, s: Snap, nd: nat, c: nat, m3: seq<Page>, f: nat, p: nat)
    requires Finishing(was, s, nd, c, m3, f)
    requires was.st[was.cur] != Deaded && PrivateNow(s.mem, was.st, was.pde, was.cur, nd)
    requires p < MAX_PROCESS && was.st[p] != Unuse
    ensures FixedPages(m3, was.st[p], was.pde[p])
  {
    hide Sharing, ChildDir, LocsExact, Ahead, PinfFresh, DataKept, PrivatePage, StackStep;
    var cl, pl := TabLoc(s.mem, nd, USEENDP, USEENDP), TabLoc(was.mem, was.dir, USEENDP, USEENDP);
    var dp := was.pde[p];
    assert FixedPages(was.mem, was.st[p], dp) && was.role[dp] == Dir(p) && s.mem[dp] == was.mem[dp];
    TablesOf(was, s, nd, c, p);
    if was.st[p] != Deaded {
      PrivateLasts(s.mem, m3, s.role, cl, pl, f, Entry(s.mem, pl).base, dp, p, USEPAGE, 0);
    } else {
      DeadLasts(was, s, nd, c, m3, f, p);
    }
    if p != was.cur {
      PrivateLasts(s.mem, m3, s.role, cl, pl, f, Entry(s.mem, pl).base, dp, p, USEENDP, USEENDP);
    } else {
      StackPrivate(was, s, nd, c, m3, f);
    }
  }

  /** The tables of a process are tables after the loop. */
  lemma TablesOf(was: Before, s: Snap, nd: nat, c: nat, p: nat)
    requires Parent(was) && DirLoop(was, s.mem, s.role, s.locs, nd, c, ENTRIES) && p < MAX_PROCESS && was.st[p] != Unuse
    ensures IsTable(s.mem, was.pde[p]) && was.pde[p] in s.role && s.role[was.pde[p]] == Dir(p)
    ensures forall i :: USEPAGE <= i < ENTRIES && Entry(s.mem, Loc(was.pde[p], i)).P ==> Entry(s.mem, Loc(was.pde[p], i)).base in s.role
  {
    hide Sharing, ChildDir, LocsExact, Ahead, PinfFresh, DataKept, Roles, FixedPages;
    assert was.role[was.pde[p]] == Dir(p) && DirOwns(was.mem, was.role, p, was.pde[p], ENTRIES);
  }

  /** A dead process still has nothing but its kernel stack. */
  lemma DeadLasts(was: Before, s: Snap, nd: nat, c: nat, m3: seq<Page>, f: nat, p: nat)
    requires Finishing(was, s, nd, c, m3, f) && p < MAX_PROCESS && was.st[p] == Deaded
    ensures var dp := was.pde[p];
      && IsTable(m3, dp) && IsTable(was.mem, dp) && IsTable(m3, Entry(m3, Loc(dp, USEENDP)).base)
      && (forall i :: USEPAGE <= i < USEENDP ==> !Entry(m3, Loc(dp, i)).P)
      && (forall j :: 0 <= j < USEENDP ==> !Entry(m3, Loc(Entry(m3, Loc(dp, USEENDP)).base, j)).P)
  {
    hide Sharing, ChildDir, LocsExact, Ahead, PinfFresh, DataKept, Roles;
    var cl, pl := TabLoc(s.mem, nd, USEENDP, USEENDP), TabLoc(was.mem, was.dir, USEENDP, USEENDP);
    var dp := was.pde[p];
    assert FixedPages(was.mem, was.st[p], dp) && was.role[dp] == Dir(p) && s.mem[dp] == was.mem[dp];
    assert DirOwns(was.mem, was.role, p, dp, ENTRIES);
    var t := Entry(was.mem, Loc(dp, USEENDP)).base;
    forall j | 0 <= j < USEENDP
      ensures !Entry(m3, Loc(t, j)).P
    {
      assert SameMap(was.mem, s.mem, Loc(t, j)) && EntryLasts(s.mem, m3, Loc(t, j), cl);
    }
  }

  /** The parent has its kernel stack to itself again. */
  lemma StackPrivate(was: Before, s: Snap, nd: nat, c: nat, m3: seq<Page>, f: nat)
    requires Finishing(was, s, nd, c, m3, f)
    ensures PrivatePage(m3, was.dir, USEENDP, USEENDP)
  {
    hide Sharing, ChildDir, LocsExact, Ahead, PinfFresh, DataKept, Roles, FixedPages;
    var cl, pl := TabLoc(s.mem, nd, USEENDP, USEENDP), TabLoc(was.mem, was.dir, USEENDP, USEENDP);
    assert was.role[was.dir] == Dir(was.cur) && DirOwns(was.mem, was.role, was.cur, was.dir, ENTRIES);
    assert SameMap(was.mem, s.mem, pl) && EntryLasts(s.mem, m3, pl, cl);
  }

  lemma FinishSpaces(was: Before, s: Snap, nd: nat, c: nat, m3: seq<Page>, f: nat, st': seq<Status>, pde': seq<nat>)
    requires Finishing(was, s, nd, c, m3, f)
    requires was.st[was.cur] != Deaded && PrivateNow(s.mem, was.st, was.pde, was.cur, nd)
    requires |was.st| == |was.pde| == MAX_PROCESS
    requires c < MAX_PROCESS && was.st[c] == Unuse && st' == was.st[c := Ready] && pde' == was.pde[c := nd]
    ensures Spaces(m3, s.role, s.locs, st', pde')
  {
    hide Sharing, ChildDir, Ahead, PinfFresh, DataKept, Procs, Roles, LocsExact, FixedPages, OldKept;
    FinishProcs(was, s, nd, c, m3, f, st', pde');
    FinishRoles(was, s, nd, c, m3, f, st', pde');
    var cl, pl := TabLoc(s.mem, nd, USEENDP, USEENDP), TabLoc(was.mem, was.dir, USEENDP, USEENDP);
    FinishLocs(s.mem, s.role, s.locs, m3, cl, pl, f, Entry(s.mem, pl).base);
    forall p | 0 <= p < MAX_PROCESS
      ensures FixedPages(m3, st'[p], pde'[p])
    {
      if p == c {
        ChildFixed(was, s.mem, s.role, s.locs, nd, c, m3, cl, pl, f, Entry(s.mem, pl).base);
      } else if was.st[p] != Unuse {
        FinishFixed(was, s, nd, c, m3, f, p);
      } else {
        UnusedFixed(m3, was.pde[p]);
      }
    }
  }

  lemma ChildFixed(was: Before, m: seq<Page>, role: map<nat, Role>, locs: set<Loc>, nd: nat, c: nat, m3: seq<Page>, cl: Loc, pl: Loc,
                   f: nat, src: nat)
    requires DirLoop(was, m, role, locs, nd, c, ENTRIES) && StackStep(m, m3, role, cl, pl, f, src)
    requires cl == TabLoc(m, nd, USEENDP, USEENDP) && Entry(m, Loc(nd, USEENDP)).P && Entry(was.mem, Loc(was.dir, USEENDP)).P
    requires Entry(m, cl).P && PrivatePage(m, nd, USEPAGE, 0)
    ensures FixedPages(m3, Ready, nd)
  {
    hide LocsExact, Ahead, PinfFresh, DataKept, TableCopied, OldKept;
    assert DirEntryCopied(was, m, nd, role, c, USEPAGE);
    PrivateLasts(m, m3, role, cl, pl, f, src, nd, c, USEPAGE, 0);
  }

  // ---- what a fork takes

  /** Frames for the child's tables from directory entry `i` on, and for the argument page. */
  function FrameNeed(m: seq<Page>, d: nat, i: nat): nat
    decreases ENTRIES - i
  {
    if i >= ENTRIES || !IsTable(m, d) then 0
    else (if Entry(m, Loc(d, i)).P then 1 + FirstShared(i) else 0) + FrameNeed(m, d, i + 1)
  }

  /** Share-list slots for the entries of the tables from directory entry `i` on. */
  function ShareNeed(m: seq<Page>, d: nat, i: nat): nat
    decreases ENTRIES - i
  {
    if i >= ENTRIES || !IsTable(m, d) then 0
    else (if Entry(m, Loc(d, i)).P && IsTable(m, Entry(m, Loc(d, i)).base)
          then SlotNeed(m[Entry(m, Loc(d, i)).base].entries, FirstShared(i)) else 0) + ShareNeed(m, d, i + 1)
  }

  /** One frame for the directory, one for the kernel stack, and the rest. */
  predicate ForkFits(m: seq<Page>, mmap: seq<bool>, psl: seq<Slot>, d: nat)
    requires |mmap| == MAXPAGE && |psl| == MAX_SHRLC
  {
    && |FreeFrames(mmap)| >= 2 + FrameNeed(m, d, USEPAGE)
    && |FreeSlots(psl)| >= ShareNeed(m, d, USEPAGE)
  }

  // ---- the call, part by part

  lemma LoopStart(was: Before, nd: nat, c: nat)
    requires Parent(was)
    requires nd < MAXPAGE && was.mmap[nd] && nd !in was.role && IsTable(was.mem, was.dir)
    ensures DirLoop(was, was.mem[nd := was.mem[was.dir]], was.role[nd := Dir(c)], was.locs, nd, c, USEPAGE)
  {
    hide Entries, MembersMap, SoleOwner, Procs, Roles, FixedPages;
    var m, role := was.mem[nd := was.mem[was.dir]], was.role[nd := Dir(c)];
    assert forall l: Loc :: l in was.locs ==> l.table != nd;
    assert LocsExact(m, role, was.locs);
    forall q | USEPAGE <= q < ENTRIES && Entry(was.mem, Loc(was.dir, q)).P
      ensures Entry(was.mem, Loc(was.dir, q)).base < |was.mem|
        && m[Entry(was.mem, Loc(was.dir, q)).base] == was.mem[Entry(was.mem, Loc(was.dir, q)).base]
    {
      ParentTable(was, q);
    }
  }

  ghost function Now(k: Kernel): Snap
    reads k, k.mem, k.mmap
  {
    Snap(k.mem[..], k.mmap[..], k.role, k.locs, k.x.groups)
  }

  /** What `sys_fork` finds when process `cur` calls it. */
  ghost function AtCall(k: Kernel, cur: nat): Before
    requires cur < k.pde.Length
    reads k, k.mem, k.mmap, k.status, k.pde
  {
    Before(k.mem[..], k.mmap[..], k.role, k.locs, k.x.groups, k.status[..], k.pde[..], cur, k.pde[cur])
  }

  /** fork.c lines 36-38: the child's directory starts as a copy of the parent's. */
  method CopyDirectory(k: Kernel, cur: nat, c: nat) returns (nd: nat)
    requires Inv(k) && cur < MAX_PROCESS && c < MAX_PROCESS && k.status.Length == k.pde.Length == MAX_PROCESS
    requires k.status[cur] != Unuse && cur != c
    requires k.mmap.Length == MAXPAGE && FreeFrames(k.mmap[..]) != {}
    modifies k`role, k.mmap, k.mem, k.pde
    ensures k.Core() && k.mmap.Length == MAXPAGE && nd < MAXPAGE
    ensures k.pde[..] == old(k.pde[..])[c := nd]
    ensures k.role == old(k.role)[nd := Dir(c)]
    ensures FreeFrames(k.mmap[..]) == old(FreeFrames(k.mmap[..])) - {nd} && nd in old(FreeFrames(k.mmap[..]))
    ensures forall h :: 0 <= h < MAXPAGE && k.mmap[h] ==> old(k.mmap[h])
    ensures k.mmap[..] == old(k.mmap[..])[nd := false]
    ensures DirLoop(old(AtCall(k, cur)), k.mem[..], k.role, k.locs, nd, c, USEPAGE)
  {
    hide Wf, Sharing, Spaces, DirLoop, FreeFrames, Unmapped;
    ghost var m0, mmap0, role0 := k.mem[..], k.mmap[..], k.role;
    ghost var was := AtCall(k, cur);
    CurDir(k, cur);
    k.SharingSizes();
    var page := k.GetPage();
    nd := page;
    FreeFrameIs(mmap0, nd);
    LoopStart(was, nd, c);
    k.pde[c] := nd;
    FillKeeps(m0, k.mmap[..], role0.Keys, k.locs, k.x.groups, nd, m0[was.dir]);
    k.PageCopy(nd, k.pde[cur]);
    k.FillUnmaps(m0, nd, m0[was.dir]);
    NewTableKeeps(k.mem[..], k.mmap[..], role0.Keys, k.locs, k.x.groups, nd);
    k.role := k.role[nd := Dir(c)];
    assert k.role.Keys == role0.Keys + {nd};
  }

  lemma CurDir(k: Kernel, p: nat)
    requires Inv(k) && p < MAX_PROCESS && k.status.Length == k.pde.Length == MAX_PROCESS && k.status[p] != Unuse
    ensures k.pde[p] in k.role && k.role[k.pde[p]] == Dir(p) && IsTable(k.mem[..], k.pde[p]) && k.pde[p] < MAXPAGE
  {
    hide Wf, Sharing, Roles, LocsExact, FixedPages;
    k.SharingSizes();
  }

  /** Every present entry of a table in use is live and maps data in use. */
  lemma ReadyNow(s: Snap, t: nat)
    requires Sharing(s.mem, s.mmap, s.role.Keys, s.locs, s.groups) && LocsExact(s.mem, s.role, s.locs)
    requires t in s.role && s.role[t].Tab? && IsTable(s.mem, t)
    ensures TableReady(s.mem, s.mmap, s.role, s.locs, t)
  {
    forall q | 0 <= q < ENTRIES && Entry(s.mem, Loc(t, q)).P
      ensures var b := Entry(s.mem, Loc(t, q)).base; IsData(s.mem, b) && !s.mmap[b] && b !in s.role
    {
      assert EntryOk(s.mem, s.mmap, s.role.Keys, s.groups, Loc(t, q));
    }
  }

  /** The new table as a plain copy: nothing of it is live yet. */
  lemma TableStart(s: Snap, nd: nat, i: nat, ct: nat, nt: nat)
    requires Sharing(s.mem, s.mmap, s.role.Keys, s.locs, s.groups) && LocsExact(s.mem, s.role, s.locs)
    requires nd in s.role && s.role[nd].Dir? && ct in s.role && s.role[ct].Tab? && i < ENTRIES
    requires nt < MAXPAGE && s.mmap[nt] && nt !in s.role && IsTable(s.mem, nd)
    ensures var m2 := SetEntry(s.mem, Loc(nd, i), Entry(s.mem, Loc(nd, i)).(base := nt));
      && |m2| == MAXPAGE && IsTable(m2, ct)
      && TableLoop(s.(mem := m2), m2[nt := m2[ct]], s.locs, ct, nt, i, 0)
      && TableReady(m2, s.mmap, s.role, s.locs, ct)
  {
    hide Entries, MembersMap, SoleOwner;
    assert IsTable(s.mem, ct);
    ReadyNow(s, ct);
    var m2 := SetEntry(s.mem, Loc(nd, i), Entry(s.mem, Loc(nd, i)).(base := nt));
    var m := m2[nt := m2[ct]];
    assert forall l :: l in s.locs ==> l.table != nt;
    assert LocsGrow(s.locs, m, s.locs, nt, 0);
  }

  /** What the loop over the table did is one step of the outer loop. */
  lemma TableEnd(s: Snap, m2: seq<Page>, m3: seq<Page>, role3: map<nat, Role>, locs3: set<Loc>, ct: nat, nt: nat, nd: nat, c: nat, i: nat)
    requires |s.mem| == |s.mmap| == MAXPAGE && USEPAGE <= i < ENTRIES
    requires IsTable(s.mem, nd) && Entry(s.mem, Loc(nd, i)).P && Entry(s.mem, Loc(nd, i)).base == ct
    requires nd in s.role && s.role[nd].Dir? && ct in s.role && s.role[ct].Tab?
    requires forall t :: t in s.role ==> IsTable(s.mem, t)
    requires m2 == SetEntry(s.mem, Loc(nd, i), Entry(s.mem, Loc(nd, i)).(base := nt))
    requires TableLoop(s.(mem := m2), m3, locs3, ct, nt, i, ENTRIES)
    requires role3 == s.role[nt := Tab(c, i)]
    ensures TableStep(s, m3, role3, locs3, ct, nt, nd, c, i)
  {
    assert TableCopied(s.mem, ct, m3, nt, i) by {
      forall j | 0 <= j < ENTRIES
        ensures Copied(s.mem, ct, m3, nt, i, j)
      {
        assert Copied(m2, ct, m3, nt, i, j);
      }
    }
    forall q | 0 <= q < ENTRIES
      ensures SameMap(s.mem, m3, Loc(ct, q))
    {
      assert SameMap(m2, m3, Loc(ct, q));
    }
  }

  /** fork.c lines 47-52: the child's directory gets a new table, a copy of the parent's. */
  method NewTable(k: Kernel, nd: nat, c: nat, i: nat, ct: nat) returns (nt: nat)
    requires k.Core() && k.mem.Length == k.mmap.Length == MAXPAGE && LocsExact(k.mem[..], k.role, k.locs)
    requires nd in k.role && k.role[nd].Dir? && ct in k.role && k.role[ct].Tab? && i < ENTRIES && nd < MAXPAGE
    requires IsTable(k.mem[..], nd) && Entry(k.mem[..], Loc(nd, i)).base == ct && FreeFrames(k.mmap[..]) != {}
    modifies k`role, k.mmap, k.mem
    ensures k.Core() && nt < MAXPAGE && nt !in old(k.role) && k.role == old(k.role)[nt := Tab(c, i)]
    ensures k.mmap[..] == old(k.mmap[..])[nt := false] && nt in FreeFrames(old(k.mmap[..]))
    ensures |FreeFrames(k.mmap[..])| == |FreeFrames(old(k.mmap[..]))| - 1
    ensures var m := old(k.mem[..]);
      var m2 := SetEntry(m, Loc(nd, i), Entry(m, Loc(nd, i)).(base := nt));
      && |m2| == MAXPAGE && IsTable(m2, ct) && k.mem[..] == m2[nt := m2[ct]]
      && TableLoop(old(Now(k)).(mem := m2), k.mem[..], k.locs, ct, nt, i, 0)
      && TableReady(m2, old(k.mmap[..]), old(k.role), k.locs, ct)
  {
    hide Wf, Sharing, TableLoop, TableReady, LocsExact, FreeFrames, SetEntry, Unmapped;
    ghost var s := Now(k);
    k.TablesFacts();
    var page := k.GetPage();
    nt := page;
    FreeFrameIs(s.mmap, nt);
    TableStart(s, nd, i, ct, nt);
    RewriteKeeps(s.mem, k.mmap[..], s.role.Keys, s.locs, s.groups, Loc(nd, i), Entry(s.mem, Loc(nd, i)).(base := nt));
    k.RewriteUnmaps(s.mem, Loc(nd, i), Entry(s.mem, Loc(nd, i)).(base := nt), nt);
    k.SetEntryIs(s.mem, Loc(nd, i), Entry(s.mem, Loc(nd, i)).(base := nt));
    k.mem[nd] := Table(k.mem[nd].entries[i := k.mem[nd].entries[i].(base := nt)]);
    ghost var m2 := k.mem[..];
    FillKeeps(m2, k.mmap[..], s.role.Keys, s.locs, s.groups, nt, m2[ct]);
    k.FillUnmaps(m2, nt, m2[ct]);
    k.PageCopy(nt, ct);
    NewTableKeeps(k.mem[..], k.mmap[..], s.role.Keys, s.locs, s.groups, nt);
    k.role := k.role[nt := Tab(c, i)];
    assert k.role.Keys == s.role.Keys + {nt};
  }

  /** fork.c lines 46-67: one directory entry. */
  method CopyTable(k: Kernel, nd: nat, c: nat, i: nat, ghost was: Before)
    requires Parent(was) && was.st[was.cur] != Deaded
    requires k.Core() && DirLoop(was, k.mem[..], k.role, k.locs, nd, c, i)
    requires USEPAGE <= i < ENTRIES && nd < MAXPAGE && Entry(was.mem, Loc(was.dir, i)).P && k.mem.Length == MAXPAGE
    requires k.mmap.Length == MAXPAGE && k.psl.Length == MAX_SHRLC
    requires forall h :: 0 <= h < MAXPAGE && k.mmap[h] ==> was.mmap[h]
    requires |FreeFrames(k.mmap[..])| >= 1 + FirstShared(i)
    requires |FreeSlots(k.psl[..])| >= SlotNeed(was.mem[Entry(was.mem, Loc(was.dir, i)).base].entries, FirstShared(i))
    modifies k`x, k`locs, k`role, k.psl, k.mmap, k.mem
    ensures k.Core() && DirLoop(was, k.mem[..], k.role, k.locs, nd, c, i + 1)
    ensures k.mmap.Length == MAXPAGE && k.psl.Length == MAX_SHRLC
    ensures forall h :: 0 <= h < MAXPAGE && k.mmap[h] ==> was.mmap[h]
    ensures |FreeFrames(k.mmap[..])| >= old(|FreeFrames(k.mmap[..])|) - 1 - FirstShared(i)
    ensures |FreeSlots(k.psl[..])| >= old(|FreeSlots(k.psl[..])|) - SlotNeed(was.mem[Entry(was.mem, Loc(was.dir, i)).base].entries,
      FirstShared(i))
    ensures TakenFor(old(k.mmap[..]), k.mmap[..], k.mem[..], k.role, nd, i == USEPAGE) && old(k.role.Keys) <= k.role.Keys
    ensures i > USEPAGE ==> FrameOf(k.mem[..], nd, USEPAGE, 0) == FrameOf(old(k.mem[..]), nd, USEPAGE, 0)
  {
    hide Wf, Sharing, Parent, DirLoop, TableLoop, TableStep, TableReady;
    hide LocsExact, FreeFrames, FreeSlots, SetEntry, Unmapped, TakenFor, WithPinf, FrameOf;
    ghost var s := Now(k);
    CopyTableFacts(was, s.mem, s.role, s.locs, nd, c, i);
    k.TablesFacts();
    var ct := k.mem[nd].entries[i].base;
    var nt := NewTable(k, nd, c, i, ct);
    ghost var m2 := SetEntry(s.mem, Loc(nd, i), Entry(s.mem, Loc(nd, i)).(base := nt));
    k.SetEntryIs(s.mem, Loc(nd, i), Entry(s.mem, Loc(nd, i)).(base := nt));
    PinfFacts(was, s.mem, s.role, s.locs, nd, c, i, m2, nt);
    ShareTable(k, ct, nt, i, s.(mem := m2));
    TableEnd(s, m2, k.mem[..], k.role, k.locs, ct, nt, nd, c, i);
    TableStepKeeps(was, s, k.mem[..], k.role, k.locs, ct, nt, nd, c, i);
    StepTakes(was, s, k.mem[..], k.role, k.locs, k.mmap[..], ct, nt, nd, c, i);
  }

  /** Every frame taken is a table now, or the child's argument page. */
  ghost predicate TakenFor(mmap0: seq<bool>, mmap: seq<bool>, m: seq<Page>, role: map<nat, Role>, nd: nat, pinf: bool) {
    |mmap| == |mmap0| && forall h :: 0 <= h < |mmap| && mmap0[h] && !mmap[h] ==>
      h in role || (pinf && FrameOf(m, nd, USEPAGE, 0) == Some(h))
  }

  lemma StepTakes(was: Before, s: Snap, m2: seq<Page>, role2: map<nat, Role>, locs2: set<Loc>, mmap2: seq<bool>, ct: nat, nt: nat,
                  nd: nat, c: nat, i: nat)
    requires Parent(was) && was.st[was.cur] != Deaded
    requires DirLoop(was, s.mem, s.role, s.locs, nd, c, i)
    requires TableStep(s, m2, role2, locs2, ct, nt, nd, c, i)
    requires mmap2 == WithPinf(s.mmap[nt := false], m2, nt, i == USEPAGE)
    ensures TakenFor(s.mmap, mmap2, m2, role2, nd, i == USEPAGE)
    ensures i > USEPAGE ==> FrameOf(m2, nd, USEPAGE, 0) == FrameOf(s.mem, nd, USEPAGE, 0)
  {
    hide Sharing, LocsGrow, LocsExact, DataKept, TableReady, OldKept, Ahead, PinfFresh, FixedPages;
    assert Entry(s.mem, Loc(nd, i)) == Entry(was.mem, Loc(was.dir, i));
    ParentTable(was, i);
    if i == USEPAGE {
      PinfPresent(was, s.mem, s.role, s.locs, nd, c, i);
      assert Copied(s.mem, ct, m2, nt, i, 0);
    } else {
      assert DirEntryCopied(was, s.mem, nd, s.role, c, USEPAGE);
      assert Entry(m2, Loc(nd, USEPAGE)) == Entry(s.mem, Loc(nd, USEPAGE));
    }
  }

  lemma PinfPresent(was: Before, m1: seq<Page>, role1: map<nat, Role>, locs1: set<Loc>, nd: nat, c: nat, i: nat)
    requires Parent(was) && was.st[was.cur] != Deaded
    requires DirLoop(was, m1, role1, locs1, nd, c, i) && i == USEPAGE && Entry(was.mem, Loc(was.dir, i)).P
    ensures var ct := Entry(was.mem, Loc(was.dir, i)).base; IsTable(m1, ct) && Entry(m1, Loc(ct, 0)).P
  {
    CopyTableFacts(was, m1, role1, locs1, nd, c, i);
    assert FixedPages(was.mem, was.st[was.cur], was.dir);
  }

  lemma CopyTableFacts(was: Before, m: seq<Page>, role: map<nat, Role>, locs: set<Loc>, nd: nat, c: nat, i: nat)
    requires Parent(was)
    requires DirLoop(was, m, role, locs, nd, c, i) && i < ENTRIES && Entry(was.mem, Loc(was.dir, i)).P
    ensures LocsExact(m, role, locs) && nd in role && role[nd] == Dir(c) && IsTable(m, nd)
    ensures Entry(m, Loc(nd, i)) == Entry(was.mem, Loc(was.dir, i)) && Loc(nd, i) !in locs
    ensures var ct := Entry(was.mem, Loc(was.dir, i)).base;
      && ct in was.role && was.role[ct] == Tab(was.cur, i) && ct in role && role[ct] == Tab(was.cur, i)
      && IsTable(was.mem, ct) && m[ct] == was.mem[ct] && ct != nd
  {
    hide Sharing, Spaces, DataKept, PinfFresh;
    ParentTable(was, i);
  }

  lemma PinfFacts(was: Before, m1: seq<Page>, role1: map<nat, Role>, locs1: set<Loc>, nd: nat, c: nat, i: nat, m2: seq<Page>, nt: nat)
    requires Parent(was) && was.st[was.cur] != Deaded
    requires DirLoop(was, m1, role1, locs1, nd, c, i) && i < ENTRIES && Entry(was.mem, Loc(was.dir, i)).P
    requires m2 == SetEntry(m1, Loc(nd, i), Entry(m1, Loc(nd, i)).(base := nt))
    ensures i == USEPAGE ==> var ct := Entry(was.mem, Loc(was.dir, i)).base;
      IsTable(m2, ct) && Entry(m2, Loc(ct, 0)).P && !Entry(m2, Loc(ct, 0)).AVL && Entry(m2, Loc(ct, 0)).RW
  {
    CopyTableFacts(was, m1, role1, locs1, nd, c, i);
    if i == USEPAGE {
      assert FixedPages(was.mem, was.st[was.cur], was.dir);
      var l := Loc(Entry(was.mem, Loc(was.dir, i)).base, 0);
      assert l in was.locs;
      assert EntryOk(was.mem, was.mmap, was.role.Keys, was.groups, l);
    }
  }

  /** After the loop the kernel stack is shared by parent and child, by them alone. */
  ghost predicate StackPair(k: Kernel, was: Before, nd: nat, c: nat, n: nat)
    reads k, k.mem
  {
    var m := k.mem[..];
    && IsTable(m, was.dir) && IsTable(m, nd) && IsTable(was.mem, was.dir)
    && Entry(m, Loc(nd, USEENDP)).P && PrivatePage(was.mem, was.dir, USEENDP, USEENDP)
    && var cl, pl := TabLoc(m, nd, USEENDP, USEENDP), TabLoc(m, was.dir, USEENDP, USEENDP);
      && pl == TabLoc(was.mem, was.dir, USEENDP, USEENDP) && pl in was.locs && cl.table !in was.role
      && cl in k.locs && InTables(m, k.role.Keys, cl) && InTables(m, k.role.Keys, pl)
      && k.role[cl.table].Tab? && k.role[pl.table].Tab?
      && Entry(m, cl).P && Entry(m, cl).AVL && Entry(m, cl).base == Entry(m, pl).base
      && Entry(m, cl).base in k.x.groups
      && var g := k.x.groups[Entry(m, cl).base]; n < 2 && |g| == 2 && g[n] == cl && g[1 - n] == pl && cl != pl
  }

  lemma StackReady(k: Kernel, was: Before, nd: nat, c: nat) returns (n: nat)
    requires Parent(was) && was.st[was.cur] != Deaded
    requires k.Core() && DirLoop(was, k.mem[..], k.role, k.locs, nd, c, ENTRIES)
    ensures StackPair(k, was, nd, c, n)
  {
    hide Wf, Sharing, Parent, DirLoop, PrivatePage;
    var m := k.mem[..];
    StackFacts(was);
    StackShared(k, was, nd, c);
    DirsNow(was, m, k.role, k.locs, nd, c);
    var cl, pl := TabLoc(m, nd, USEENDP, USEENDP), TabLoc(m, was.dir, USEENDP, USEENDP);
    k.LocFacts(cl);
    k.LocFacts(pl);
    var g := k.x.groups[Entry(m, cl).base];
    n :| 0 <= n < |g| && g[n] == cl;
    StackSharers(k, was, nd, c, n);
  }

  /** fork.c lines 70-76: the kernel stack gets a frame of its own. */
  method CopyStack(k: Kernel, nd: nat, c: nat, d: nat, ghost was: Before) returns (ghost f: nat, ghost s: Snap)
    requires Parent(was) && was.st[was.cur] != Deaded
    requires k.Core() && DirLoop(was, k.mem[..], k.role, k.locs, nd, c, ENTRIES)
    requires d == was.dir < MAXPAGE && nd < MAXPAGE && k.mem.Length == MAXPAGE && k.mmap.Length == MAXPAGE && FreeFrames(k.mmap[..]) != {}
    requires forall h :: 0 <= h < MAXPAGE && k.mmap[h] ==> was.mmap[h]
    modifies k`x, k`locs, k.psl, k.mmap, k.mem
    ensures k.Core() && s == old(Now(k)) && k.locs == s.locs
    ensures Finishing(was, s, nd, c, k.mem[..], f)
    ensures PrivateNow(old(k.mem[..]), was.st, was.pde, was.cur, nd)
    ensures |FreeFrames(k.mmap[..])| >= |old(FreeFrames(k.mmap[..]))| - 1
    ensures f < MAXPAGE && k.mmap[..] == s.mmap[f := false]
  {
    hide Wf, Sharing, Parent, DirLoop, FreeFrames, StackStep, PrivatePage, PrivateNow;
    PrivateAll(k, was, nd, c);
    ghost var n := StackReady(k, was, nd, c);
    s := Now(k);
    f := SplitStack(k, nd, c, d, was, n);
    FreeFrameIs(s.mmap, f);
  }

  method SplitStack(k: Kernel, nd: nat, c: nat, d: nat, ghost was: Before, ghost n: nat) returns (ghost f: nat)
    requires k.Core() && StackPair(k, was, nd, c, n)
    requires d == was.dir < MAXPAGE && nd < MAXPAGE && k.mem.Length == MAXPAGE && k.mmap.Length == MAXPAGE && FreeFrames(k.mmap[..]) != {}
    modifies k`x, k`locs, k.psl, k.mmap, k.mem
    ensures k.Core() && k.locs == old(k.locs)
    ensures f in FreeFrames(old(k.mmap[..])) && k.mmap[..] == old(k.mmap[..])[f := false]
    ensures |FreeFrames(k.mmap[..])| == |FreeFrames(old(k.mmap[..]))| - 1
    ensures var m := old(k.mem[..]);
      var cl, pl := TabLoc(m, nd, USEENDP, USEENDP), TabLoc(m, d, USEENDP, USEENDP);
      StackStep(m, k.mem[..], k.role, cl, pl, f, Entry(m, pl).base)
  {
    hide Wf, Sharing, FreeFrames, StackStep, PrivatePage, UnshareMem, UnshareGroups, SetEntry, Sharers, FreeSlots;
    ghost var s := Now(k);
    ghost var m := s.mem;
    var ct, nt := k.mem[d].entries[USEENDP].base, k.mem[nd].entries[USEENDP].base;
    ghost var cl, pl := Loc(nt, USEENDP), Loc(ct, USEENDP);
    ghost var g := s.groups[Entry(m, cl).base];
    k.GroupFacts(Entry(m, cl).base);
    k.LocFacts(cl);
    k.TablesFacts();
    UnshareMaps(m, k.role.Keys, g, n);
    ghost var n' := k.DevPage(nt, USEENDP);
    assert n' == n;
    ghost var m1 := k.mem[..];
    assert SameMap(m, m1, cl) && SameMap(m, m1, pl);
    ghost var src := Entry(m, pl).base;
    f := k.FreshCopy(nt, USEENDP, k.mem[ct].entries[USEENDP].base);
    FreeFrameIs(s.mmap, f);
    StackStepDone(m, k.role, g, n, f, src);
  }

  lemma DirsNow(was: Before, m: seq<Page>, role: map<nat, Role>, locs: set<Loc>, nd: nat, c: nat)
    requires Parent(was)
    requires DirLoop(was, m, role, locs, nd, c, ENTRIES)
    requires PrivatePage(was.mem, was.dir, USEENDP, USEENDP)
    ensures IsTable(m, was.dir) && IsTable(m, nd) && m[was.dir] == was.mem[was.dir]
    ensures TabLoc(was.mem, was.dir, USEENDP, USEENDP) == TabLoc(m, was.dir, USEENDP, USEENDP)
    ensures var t := Entry(was.mem, Loc(was.dir, USEENDP)).base; t in role && role[t].Tab?
  {
    hide Sharing, ChildDir, Ahead, PinfFresh, DataKept, Roles, LocsExact, FixedPages;
    ParentTable(was, USEENDP);
  }

  lemma StackFacts(was: Before)
    requires Parent(was) && was.st[was.cur] != Deaded
    ensures PrivatePage(was.mem, was.dir, USEENDP, USEENDP)
  {
    assert FixedPages(was.mem, was.st[was.cur], was.dir);
  }

  lemma NeedUnfold(m: seq<Page>, d: nat, i: nat)
    requires i < ENTRIES && IsTable(m, d)
    requires Entry(m, Loc(d, i)).P ==> IsTable(m, Entry(m, Loc(d, i)).base)
    ensures FrameNeed(m, d, i) == (if Entry(m, Loc(d, i)).P then 1 + FirstShared(i) else 0) + FrameNeed(m, d, i + 1)
    ensures ShareNeed(m, d, i) ==
      (if Entry(m, Loc(d, i)).P then SlotNeed(m[Entry(m, Loc(d, i)).base].entries, FirstShared(i)) else 0) + ShareNeed(m, d, i + 1)
  {
  }

  lemma DirTaken(mmap0: seq<bool>, nd: nat, m: seq<Page>, role: map<nat, Role>)
    requires nd < |mmap0| && nd in role
    ensures TakenFor(mmap0, mmap0[nd := false], m, role, nd, false)
  {
  }

  lemma TakenMore(mmap0: seq<bool>, mmap1: seq<bool>, mmap2: seq<bool>, m1: seq<Page>, m2: seq<Page>, role1: map<nat, Role>,
                  role2: map<nat, Role>, nd: nat, i: nat)
    requires TakenFor(mmap0, mmap1, m1, role1, nd, i > USEPAGE)
    requires TakenFor(mmap1, mmap2, m2, role2, nd, i == USEPAGE) || mmap2 == mmap1
    requires role1.Keys <= role2.Keys && USEPAGE <= i && (i > USEPAGE ==> FrameOf(m2, nd, USEPAGE, 0) == FrameOf(m1, nd, USEPAGE, 0))
    ensures TakenFor(mmap0, mmap2, m2, role2, nd, i + 1 > USEPAGE)
  {
    hide FrameOf;
  }

  /** All frames the fork took are in use: tables, the argument page, the stack. */
  lemma ForkLoses(was: Before, s: Snap, nd: nat, c: nat, m3: seq<Page>, f: nat)
    requires Finishing(was, s, nd, c, m3, f)
    requires TakenFor(was.mmap, s.mmap, s.mem, s.role, nd, true) && f < |s.mmap|
    ensures forall h :: Lost(s.mmap[f := false], m3, s.role, s.locs, h) ==> Lost(was.mmap, was.mem, was.role, was.locs, h)
  {
    hide Sharing, DataKept, Ahead, PinfFresh, ChildDir, FixedPages, Procs, Roles;
    var cl := TabLoc(s.mem, nd, USEENDP, USEENDP);
    forall h: nat | Lost(s.mmap[f := false], m3, s.role, s.locs, h)
      ensures Lost(was.mmap, was.mem, was.role, was.locs, h)
    {
      assert cl in s.locs && !Maps(m3, cl, h);
      if FrameOf(s.mem, nd, USEPAGE, 0) == Some(h) {
        PinfMapped(was, s, nd, c, m3, f, h);
      }
      forall q | q in was.locs
        ensures !Maps(was.mem, q, h)
      {
        assert SameMap(was.mem, s.mem, q) && q in s.locs;
        assert EntryLasts(s.mem, m3, Loc(q.table, q.entry), cl) && !Maps(m3, q, h);
      }
    }
  }

  lemma PinfMapped(was: Before, s: Snap, nd: nat, c: nat, m3: seq<Page>, f: nat, h: nat)
    requires Finishing(was, s, nd, c, m3, f)
    requires FrameOf(s.mem, nd, USEPAGE, 0) == Some(h)
    ensures exists l :: l in s.locs && Maps(m3, l, h)
  {
    hide Sharing, Spaces, DataKept, Ahead, PinfFresh, OldKept;
    assert DirEntryCopied(was, s.mem, nd, s.role, c, USEPAGE);
    var cl, l := TabLoc(s.mem, nd, USEENDP, USEENDP), TabLoc(s.mem, nd, USEPAGE, 0);
    assert EntryLasts(s.mem, m3, l, cl);
    assert l.entry != cl.entry;
    assert l in s.locs && Maps(m3, l, h);
  }

  lemma FinishReads(was: Before, s: Snap, nd: nat, c: nat, m3: seq<Page>, f: nat)
    requires Finishing(was, s, nd, c, m3, f)
    ensures forall i, j :: USEPAGE <= i < ENTRIES && 0 <= j < ENTRIES ==>
      && Read(m3, nd, i, j) == Read(was.mem, was.dir, i, j)
      && (IsPinf(i, j) || (i == USEENDP && j == USEENDP) || FrameOf(m3, nd, i, j) == FrameOf(was.mem, was.dir, i, j))
  {
    hide Finishing, Read, FrameOf;
    forall i, j | USEPAGE <= i < ENTRIES && 0 <= j < ENTRIES
      ensures Read(m3, nd, i, j) == Read(was.mem, was.dir, i, j)
      ensures IsPinf(i, j) || (i == USEENDP && j == USEENDP) || FrameOf(m3, nd, i, j) == FrameOf(was.mem, was.dir, i, j)
    {
      if !IsPinf(i, j) && !(i == USEENDP && j == USEENDP) {
        FinishShares(was, s, nd, c, m3, f, i, j);
      }
      FinishRead(was, s, nd, c, m3, f, i, j);
    }
  }

  lemma OldReads(was: Before, m3: seq<Page>)
    requires Parent(was) && OldKept(was.mem, m3, was.role) && DataKept(was.mem, was.mmap, was.role, m3)
    ensures |was.st| == |was.pde| == MAX_PROCESS
    ensures forall p, i, j :: 0 <= p < MAX_PROCESS && was.st[p] != Unuse && USEPAGE <= i < ENTRIES && 0 <= j < ENTRIES ==>
      Read(m3, was.pde[p], i, j) == Read(was.mem, was.pde[p], i, j)
  {
    hide Sharing, Roles, LocsExact, FixedPages, DirOwns, Read, OldKept, DataKept;
    forall p, i, j | 0 <= p < MAX_PROCESS && was.st[p] != Unuse && USEPAGE <= i < ENTRIES && 0 <= j < ENTRIES
      ensures Read(m3, was.pde[p], i, j) == Read(was.mem, was.pde[p], i, j)
    {
      ReadKept(was.mem, was.mmap, was.role, was.locs, was.groups, was.st, was.pde, m3, p, i, j);
    }
  }

  /** The child gets the first unused slot. */
  ghost predicate ChildSlot(st: seq<Status>, c: int) {
    1 <= c < |st| && st[c] == Unuse && forall q :: 1 <= q < c ==> st[q] != Unuse
  }

  /** fork.c lines 45-68: all tables. */
  method CopyTables(k: Kernel, cur: nat, nd: nat, c: nat, ghost was: Before)
    requires Parent(was) && was.st[was.cur] != Deaded && cur < k.pde.Length && k.pde[cur] == was.dir
    requires k.Core() && DirLoop(was, k.mem[..], k.role, k.locs, nd, c, USEPAGE) && nd < MAXPAGE
    requires k.mem.Length == k.mmap.Length == MAXPAGE && k.psl.Length == MAX_SHRLC
    requires |was.mmap| == MAXPAGE && forall h :: 0 <= h < MAXPAGE && k.mmap[h] ==> was.mmap[h]
    requires |FreeFrames(k.mmap[..])| >= FrameNeed(was.mem, was.dir, USEPAGE)
    requires |FreeSlots(k.psl[..])| >= ShareNeed(was.mem, was.dir, USEPAGE)
    requires TakenFor(was.mmap, k.mmap[..], k.mem[..], k.role, nd, false)
    modifies k`x, k`locs, k`role, k.psl, k.mmap, k.mem
    ensures k.Core() && DirLoop(was, k.mem[..], k.role, k.locs, nd, c, ENTRIES)
    ensures forall h :: 0 <= h < MAXPAGE && k.mmap[h] ==> was.mmap[h]
    ensures |FreeFrames(k.mmap[..])| >= |old(FreeFrames(k.mmap[..]))| - FrameNeed(was.mem, was.dir, USEPAGE)
    ensures TakenFor(was.mmap, k.mmap[..], k.mem[..], k.role, nd, true)
  {
    hide Wf, Sharing, Parent, DirLoop, FreeFrames, FreeSlots, FrameNeed, ShareNeed, FrameOf, TakenFor;
    ghost var free := |FreeFrames(k.mmap[..])|;
    var i := USEPAGE;
    while i < ENTRIES
      invariant USEPAGE <= i <= ENTRIES && |was.mmap| == MAXPAGE
      invariant k.Core() && DirLoop(was, k.mem[..], k.role, k.locs, nd, c, i)
      invariant forall h :: 0 <= h < MAXPAGE && k.mmap[h] ==> was.mmap[h]
      invariant |FreeFrames(k.mmap[..])| >= free - FrameNeed(was.mem, was.dir, USEPAGE) + FrameNeed(was.mem, was.dir, i)
      invariant |FreeSlots(k.psl[..])| >= ShareNeed(was.mem, was.dir, i)
      invariant TakenFor(was.mmap, k.mmap[..], k.mem[..], k.role, nd, i > USEPAGE)
    {
      ghost var m1, mmap1, role1 := k.mem[..], k.mmap[..], k.role;
      LoopDirs(was, k.mem[..], k.role, k.locs, nd, c, i);
      NeedUnfold(was.mem, was.dir, i);
      if k.mem[k.pde[cur]].entries[i].P {
        CopyTable(k, nd, c, i, was);
        TakenMore(was.mmap, mmap1, k.mmap[..], m1, k.mem[..], role1, k.role, nd, i);
      } else {
        TakenMore(was.mmap, mmap1, k.mmap[..], m1, k.mem[..], role1, k.role, nd, i);
        SkipKeeps(was, k.mem[..], k.role, k.locs, nd, c, i);
      }
      i := i + 1;
    }
    NeedDone(was.mem, was.dir);
  }

  lemma NeedDone(m: seq<Page>, d: nat)
    ensures FrameNeed(m, d, ENTRIES) == 0
  {
  }

  /** fork.c `sys_fork`. Every process reads through its directory what it read before,
      and the child reads what the parent does, from the same frames: none was taken but
      for the tables, the argument page and the kernel stack, and yet it is as if all
      pages had been copied. */
  method SysFork(k: Kernel, cur: nat) returns (r: int)
    requires Inv(k) && cur < MAX_PROCESS && k.status.Length == k.pde.Length == MAX_PROCESS
    requires k.status[cur] != Unuse && k.status[cur] != Deaded
    requires k.mmap.Length == MAXPAGE && k.psl.Length == MAX_SHRLC
    requires (exists c :: ChildSlot(k.status[..], c)) ==> ForkFits(k.mem[..], k.mmap[..], k.psl[..], k.pde[cur])
    modifies k, k.mmap, k.psl, k.mem, k.status, k.pde
    ensures Inv(k) && k.status.Length == k.pde.Length == MAX_PROCESS
    ensures r == -1 <==> !exists c :: ChildSlot(old(k.status[..]), c)
    ensures r == -1 ==> k.mem[..] == old(k.mem[..]) && k.status[..] == old(k.status[..]) && k.pde[..] == old(k.pde[..])
    ensures r != -1 ==>
      && ChildSlot(old(k.status[..]), r)
      && k.status[..] == old(k.status[..])[r := Ready]
      && k.pde[..] == old(k.pde[..])[r := k.pde[r]]
    ensures r != -1 ==> forall i, j :: USEPAGE <= i < ENTRIES && 0 <= j < ENTRIES ==>
      && Read(k.mem[..], k.pde[r], i, j) == Read(old(k.mem[..]), old(k.pde[cur]), i, j)
      && (IsPinf(i, j) || (i == USEENDP && j == USEENDP)
          || FrameOf(k.mem[..], k.pde[r], i, j) == FrameOf(old(k.mem[..]), old(k.pde[cur]), i, j))
    ensures r != -1 ==> |FreeFrames(k.mmap[..])| >= |old(FreeFrames(k.mmap[..]))| - 2 - FrameNeed(old(k.mem[..]), old(k.pde[cur]), USEPAGE)
    ensures forall p, i, j :: 0 <= p < MAX_PROCESS && old(k.status[p]) != Unuse && USEPAGE <= i < ENTRIES && 0 <= j < ENTRIES ==>
      Read(k.mem[..], old(k.pde[p]), i, j) == Read(old(k.mem[..]), old(k.pde[p]), i, j)
    ensures forall f :: Lost(k.mmap[..], k.mem[..], k.role, k.locs, f) ==>
      Lost(old(k.mmap[..]), old(k.mem[..]), old(k.role), old(k.locs), f)
  {
    hide Wf, Sharing, DirLoop, FreeFrames, FreeSlots, StackStep, PrivatePage, FrameNeed, ShareNeed, Read, FrameOf;
    hide Procs, Roles, LocsExact, FixedPages, Finishing, Lost, TakenFor;
    ghost var was, free := AtCall(k, cur), |FreeFrames(k.mmap[..])|;
    CurDir(k, cur);
    k.SharingSizes();
    var c := 1;
    while c < MAX_PROCESS
      invariant 1 <= c <= MAX_PROCESS
      invariant forall q :: 1 <= q < c ==> was.st[q] != Unuse
    {
      if k.status[c] == Unuse { break; }
      c := c + 1;
    }
    if c == MAX_PROCESS {
      return -1;
    }
    assert ChildSlot(was.st, c);
    r := c;
    var nd := CopyDirectory(k, cur, c);
    k.status[c] := Waiting;
    DirTaken(was.mmap, nd, k.mem[..], k.role);
    CopyTables(k, cur, nd, c, was);
    ghost var f, s := CopyStack(k, nd, c, k.pde[cur], was);
    k.status[c] := Ready;
    FinishSpaces(was, s, nd, c, k.mem[..], f, k.status[..], k.pde[..]);
    FinishOld(was, s, nd, c, k.mem[..], f);
    ForkLoses(was, s, nd, c, k.mem[..], f);
    FinishReads(was, s, nd, c, k.mem[..], f);
    OldReads(was, k.mem[..]);
  }

  lemma LoopDirs(was: Before, m: seq<Page>, role: map<nat, Role>, locs: set<Loc>, nd: nat, c: nat, i: nat)
    requires Parent(was)
    requires DirLoop(was, m, role, locs, nd, c, i) && i < ENTRIES
    ensures IsTable(was.mem, was.dir) && m[was.dir] == was.mem[was.dir] && was.dir < |m|
    ensures Entry(was.mem, Loc(was.dir, i)).P ==> IsTable(was.mem, Entry(was.mem, Loc(was.dir, i)).base)
  {
    hide Sharing, ChildDir, Ahead, PinfFresh, DataKept, Roles, LocsExact, FixedPages;
    if Entry(was.mem, Loc(was.dir, i)).P { ParentTable(was, i); }
  }
}
