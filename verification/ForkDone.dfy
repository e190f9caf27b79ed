/** The end of fork.c: the child's kernel stack is copied, and parent and child
    keep their argument page and kernel stack to themselves. */
module ForkDone {
  import opened Basics
  import opened Paging
  import opened PageShareList
  import opened SharedMemory
  import opened CowKernel
  import opened AddressSpaces
  import opened Fork
  import opened ForkLoop

  /** A frame with one live mapping is private. */
  lemma NotShared(k: Kernel, l: Loc)
    requires k.Core() && l in k.locs && InTables(k.mem[..], k.role.Keys, l)
    requires forall m :: m in k.locs && BothMap(k.mem[..], k.role.Keys, l, m) ==> m == l
    ensures !Entry(k.mem[..], l).AVL
  {
    k.LocFacts(l);
    if Entry(k.mem[..], l).AVL {
      var f := Entry(k.mem[..], l).base;
      k.GroupFacts(f);
      var g := k.x.groups[f];
      assert BothMap(k.mem[..], k.role.Keys, l, g[0]) && BothMap(k.mem[..], k.role.Keys, l, g[1]);
    }
  }

  /** The parent's entry that a live entry of the finished tables stems from. */
  ghost predicate StemsFrom(was: Before, m: seq<Page>, role: map<nat, Role>, l: Loc, s: Loc)
    requires IsTable(was.mem, was.dir) && l.table in role && IsTable(m, l.table) && l.entry < ENTRIES
  {
    && s in was.locs && s.entry == l.entry && IsTable(was.mem, s.table) && Entry(was.mem, s).base == Entry(m, l).base
    && (if l.table in was.role then s == l
        else role[l.table].Tab? && role[l.table].dir < ENTRIES && s.table == Entry(was.mem, Loc(was.dir, role[l.table].dir)).base)
  }

  /** Every live entry maps a frame the parent's tables mapped, except the child's
      argument page, whose frame is new. */
  lemma Stem(was: Before, m: seq<Page>, role: map<nat, Role>, locs: set<Loc>, nd: nat, c: nat, l: Loc)
    requires Parent(was)
    requires DirLoop(was, m, role, locs, nd, c, ENTRIES) && l in locs
    ensures l.table in role && role[l.table].Tab? && IsTable(m, l.table) && l.entry < ENTRIES
    ensures l.table !in was.role && IsPinf(role[l.table].dir, l.entry) ==>
      Entry(m, l).base < MAXPAGE && was.mmap[Entry(m, l).base]
    ensures l.table in was.role || !IsPinf(role[l.table].dir, l.entry) ==>
      exists s :: StemsFrom(was, m, role, l, s)
  {
    hide Sharing, Ahead, DataKept;
    var t := l.table;
    if t in was.role {
      assert SameMap(was.mem, m, l);
      assert StemsFrom(was, m, role, l, l);
    } else {
      var q := role[t].dir;
      assert DirEntryCopied(was, m, nd, role, c, q);
      ParentTable(was, q);
      var ct := Entry(was.mem, Loc(was.dir, q)).base;
      assert Copied(was.mem, ct, m, t, q, l.entry);
      if !IsPinf(q, l.entry) {
        assert StemsFrom(was, m, role, l, Loc(ct, l.entry));
      }
    }
  }

  /** Who maps the frame of a page that some process had to itself: that process and,
      if it is the parent and the page is not the argument page, the child's copy. */
  lemma WhoMaps(was: Before, m: seq<Page>, role: map<nat, Role>, locs: set<Loc>, nd: nat, c: nat, pl: Loc, p: nat, i: nat, l: Loc)
    requires Parent(was)
    requires DirLoop(was, m, role, locs, nd, c, ENTRIES) && l in locs
    requires pl in was.locs && pl.table in was.role && was.role[pl.table] == Tab(p, i) && pl.entry < ENTRIES
    requires InTables(m, role.Keys, pl) && IsTable(was.mem, pl.table) && !Entry(was.mem, pl).AVL
    requires BothMap(m, role.Keys, pl, l)
    ensures l == pl || (p == was.cur && l.table in role && l.table !in was.role && role[l.table] == Tab(c, i) && l.entry == pl.entry
      && !IsPinf(i, pl.entry))
  {
    Stem(was, m, role, locs, nd, c, l);
    assert SameMap(was.mem, m, pl);
    assert EntryOk(was.mem, was.mmap, was.role.Keys, was.groups, pl);
    if s :| StemsFrom(was, m, role, l, s) {
      hide Spaces, DirLoop;
      assert EntryOk(was.mem, was.mmap, was.role.Keys, was.groups, s);
      assert BothMap(was.mem, was.role.Keys, pl, s);
      if l.table !in was.role { StemDir(was, m, role, locs, nd, c, l.table, p, i); }
    }
  }

  lemma StemDir(was: Before, m: seq<Page>, role: map<nat, Role>, locs: set<Loc>, nd: nat, c: nat, t: nat, p: nat, i: nat)
    requires Parent(was)
    requires DirLoop(was, m, role, locs, nd, c, ENTRIES)
    requires t in role && t !in was.role && role[t].Tab? && role[t].dir < ENTRIES
    requires var s := Entry(was.mem, Loc(was.dir, role[t].dir)).base; s in was.role && was.role[s] == Tab(p, i)
    ensures role[t] == Tab(c, i) && p == was.cur
  {
    hide Sharing, Ahead, DataKept, OldKept, PinfFresh, LocsExact;
    var q := role[t].dir;
    assert DirEntryCopied(was, m, nd, role, c, q);
    ParentTable(was, q);
  }

  function TabLoc(m: seq<Page>, d: nat, i: nat, j: nat): Loc
    requires IsTable(m, d) && i < ENTRIES
  {
    Loc(Entry(m, Loc(d, i)).base, j)
  }

  /** A page a process had to itself is still its own when the loop is done; only the
      parent's kernel stack is shared then. */
  lemma PrivateStays(k: Kernel, was: Before, nd: nat, c: nat, p: nat, i: nat, j: nat)
    requires Parent(was)
    requires k.Core() && DirLoop(was, k.mem[..], k.role, k.locs, nd, c, ENTRIES)
    requires p < MAX_PROCESS && was.st[p] != Unuse && USEPAGE <= i && PrivatePage(was.mem, was.pde[p], i, j)
    requires p != was.cur || IsPinf(i, j)
    ensures PrivatePage(k.mem[..], was.pde[p], i, j)
  {
    var m := k.mem[..];
    var pl := TabLoc(was.mem, was.pde[p], i, j);
    assert was.role[was.pde[p]] == Dir(p) && was.role[pl.table] == Tab(p, i) && SameMap(was.mem, m, pl);
    assert pl in was.locs && pl in k.locs && InTables(m, k.role.Keys, pl);
    hide Spaces, DirLoop, Wf, Sharing;
    forall l | l in k.locs && BothMap(m, k.role.Keys, pl, l)
      ensures l == pl
    {
      WhoMaps(was, m, k.role, k.locs, nd, c, pl, p, i, l);
    }
    NotShared(k, pl);
  }

  /** The child's argument page is its own. */
  lemma ChildPinfPrivate(k: Kernel, was: Before, nd: nat, c: nat)
    requires Parent(was)
    requires k.Core() && DirLoop(was, k.mem[..], k.role, k.locs, nd, c, ENTRIES)
    requires PrivatePage(was.mem, was.dir, USEPAGE, 0)
    ensures PrivatePage(k.mem[..], nd, USEPAGE, 0)
  {
    hide Wf, Sharing;
    var m := k.mem[..];
    assert DirEntryCopied(was, m, nd, k.role, c, USEPAGE);
    assert Copied(was.mem, Entry(was.mem, Loc(was.dir, USEPAGE)).base, m, Entry(m, Loc(nd, USEPAGE)).base, USEPAGE, 0);
    var cl := TabLoc(m, nd, USEPAGE, 0);
    assert cl in k.locs && InTables(m, k.role.Keys, cl);
    forall l | l in k.locs && BothMap(m, k.role.Keys, cl, l)
      ensures l == cl
    {
      Stem(was, m, k.role, k.locs, nd, c, l);
      if s :| StemsFrom(was, m, k.role, l, s) {
        StemAllocated(was, s);
      }
    }
    NotShared(k, cl);
  }

  lemma StemAllocated(was: Before, s: Loc)
    requires Sharing(was.mem, was.mmap, was.role.Keys, was.locs, was.groups) && s in was.locs && IsTable(was.mem, s.table)
      && s.entry < ENTRIES
    ensures Entry(was.mem, s).base < MAXPAGE && !was.mmap[Entry(was.mem, s).base]
  {
    assert EntryOk(was.mem, was.mmap, was.role.Keys, was.groups, s);
  }

  /** After the loop the kernel stack is shared by parent and child alone. */
  lemma StackShared(k: Kernel, was: Before, nd: nat, c: nat)
    requires Parent(was)
    requires k.Core() && DirLoop(was, k.mem[..], k.role, k.locs, nd, c, ENTRIES)
    requires PrivatePage(was.mem, was.dir, USEENDP, USEENDP)
    ensures Entry(k.mem[..], Loc(nd, USEENDP)).P
    ensures var cl, pl := TabLoc(k.mem[..], nd, USEENDP, USEENDP), TabLoc(was.mem, was.dir, USEENDP, USEENDP);
      && cl in k.locs && pl in k.locs && cl != pl && pl in was.locs
      && InTables(k.mem[..], k.role.Keys, cl) && InTables(k.mem[..], k.role.Keys, pl)
      && k.role[cl.table] == Tab(c, USEENDP) && cl.table !in was.role
      && Entry(k.mem[..], cl).AVL && Entry(k.mem[..], cl).base == Entry(k.mem[..], pl).base == Entry(was.mem, pl).base
  {
    hide Wf;
    var m := k.mem[..];
    assert DirEntryCopied(was, m, nd, k.role, c, USEENDP);
    assert Copied(was.mem, Entry(was.mem, Loc(was.dir, USEENDP)).base, m, Entry(m, Loc(nd, USEENDP)).base, USEENDP, USEENDP);
    var cl, pl := TabLoc(m, nd, USEENDP, USEENDP), TabLoc(was.mem, was.dir, USEENDP, USEENDP);
    ParentTable(was, USEENDP);
    assert SameMap(was.mem, m, pl);
    assert cl in k.locs && pl in k.locs;
    assert BothMap(m, k.role.Keys, cl, pl);
  }

  lemma PrivateLoc(was: Before, i: nat, j: nat)
    requires Parent(was)
    requires USEPAGE <= i && PrivatePage(was.mem, was.dir, i, j)
    ensures TabLoc(was.mem, was.dir, i, j) in was.locs
  {
    ParentTable(was, i);
  }

  /** The sharers of the kernel stack are exactly those two. */
  lemma StackSharers(k: Kernel, was: Before, nd: nat, c: nat, n: nat)
    requires Parent(was)
    requires k.Core() && DirLoop(was, k.mem[..], k.role, k.locs, nd, c, ENTRIES)
    requires PrivatePage(was.mem, was.dir, USEENDP, USEENDP) && Entry(k.mem[..], Loc(nd, USEENDP)).P
    requires InTables(k.mem[..], k.role.Keys, TabLoc(was.mem, was.dir, USEENDP, USEENDP))
    requires var cl := TabLoc(k.mem[..], nd, USEENDP, USEENDP);
      && cl in k.locs && InTables(k.mem[..], k.role.Keys, cl) && k.role[cl.table] == Tab(c, USEENDP) && cl.table !in was.role
      && var f := Entry(k.mem[..], cl).base;
        && f == Entry(was.mem, TabLoc(was.mem, was.dir, USEENDP, USEENDP)).base
        && f in k.x.groups && n < |k.x.groups[f]| && k.x.groups[f][n] == cl
    ensures var g := k.x.groups[Entry(k.mem[..], TabLoc(k.mem[..], nd, USEENDP, USEENDP)).base];
      |g| == 2 && g[1 - n] == TabLoc(was.mem, was.dir, USEENDP, USEENDP)
  {
    hide Wf, Sharing, Spaces, ChildDir, RolesGrow, Ahead, PinfFresh, DataKept, LocsExact;
    var m := k.mem[..];
    var cl, pl := TabLoc(m, nd, USEENDP, USEENDP), TabLoc(was.mem, was.dir, USEENDP, USEENDP);
    ParentTable(was, USEENDP);
    PrivateLoc(was, USEENDP, USEENDP);
    assert SameMap(was.mem, m, pl);
    var f := Entry(m, cl).base;
    k.GroupFacts(f);
    var g := k.x.groups[f];
    forall a | 0 <= a < |g|
      ensures g[a] == pl || g[a] == cl
    {
      assert BothMap(m, k.role.Keys, pl, g[a]);
      WhoMaps(was, m, k.role, k.locs, nd, c, pl, was.cur, USEENDP, g[a]);
      if g[a] != pl { SameTab(was, m, k.role, k.locs, nd, c, g[a].table, cl.table); }
    }
    TwoOnly(g, pl, cl, n);
  }

  lemma TwoOnly(g: seq<Loc>, a: Loc, b: Loc, n: nat)
    requires |g| >= 2 && n < |g| && g[n] == b && DistinctTables(g)
    requires forall i :: 0 <= i < |g| ==> g[i] == a || g[i] == b
    ensures |g| == 2 && g[1 - n] == a
  {
    if |g| > 2 { Third(g, a, b); }
  }

  lemma Third(g: seq<Loc>, a: Loc, b: Loc)
    requires |g| > 2 && DistinctTables(g)
    ensures exists i :: 0 <= i < |g| && g[i] != a && g[i] != b
  {
    assert g[0] != g[1] && g[0] != g[2] && g[1] != g[2];
  }

  lemma SameTab(was: Before, m: seq<Page>, role: map<nat, Role>, locs: set<Loc>, nd: nat, c: nat, t: nat, u: nat)
    requires DirLoop(was, m, role, locs, nd, c, ENTRIES)
    requires t in role && u in role && t !in was.role && u !in was.role && role[t] == role[u] && role[t].Tab?
    ensures t == u
  {
  }

  // ---- the kernel stack gets a frame of its own

  /** From `m` to `m3` the live entry `cl` got frame `f` with the contents of `src`,
      the entry `pl` became private, and no other entry changed what it maps or
      became shared. */
  ghost predicate StackStep(m: seq<Page>, m3: seq<Page>, role: map<nat, Role>, cl: Loc, pl: Loc, f: nat, src: nat) {
    && |m| == |m3| && f < |m| && src < |m| && f !in role && cl.entry < ENTRIES && pl.entry < ENTRIES
    && cl.table in role && pl.table in role
    && (forall t :: t in role ==> IsTable(m, t) && IsTable(m3, t))
    && (forall t :: t in role && role[t].Dir? ==> m3[t] == m[t])
    && (forall t, j :: t in role && 0 <= j < ENTRIES ==> EntryLasts(m, m3, Loc(t, j), cl))
    && !Entry(m3, pl).AVL
    && Entry(m3, cl) == Entry(m, cl).(base := f, AVL := false, RW := true)
    && m3[f] == m[src] && (forall h :: 0 <= h < |m| && h !in role && h != f ==> m3[h] == m[h])
  }

  lemma StackStepDone(m: seq<Page>, role: map<nat, Role>, g: seq<Loc>, n: nat, f: nat, src: nat)
    requires forall t :: t in role ==> IsTable(m, t)
    requires |g| == 2 && n < 2 && g[n] != g[1 - n]
    requires forall i :: 0 <= i < |g| ==> g[i].table in role && role[g[i].table].Tab? && g[i].entry < ENTRIES
    requires f < |m| && src < |m| && f !in role && src !in role
    ensures var m1 := UnshareMem(m, g, n);
      var m2 := SetEntry(m1, g[n], Entry(m1, g[n]).(base := f));
      |m2| == |m| && StackStep(m, m2[f := m1[src]], role, g[n], g[1 - n], f, src)
  {
    UnshareMaps(m, role.Keys, g, n);
    var m1 := UnshareMem(m, g, n);
    assert forall t :: t in role && role[t].Dir? ==> m1[t] == m[t];
    hide UnshareMem;
    var m2 := SetEntry(m1, g[n], Entry(m1, g[n]).(base := f));
    SetEntryAt(m1, role.Keys, g[n], Entry(m1, g[n]).(base := f));
    hide SetEntry;
    var m3 := m2[f := m1[src]];
    forall t, j | t in role && 0 <= j < ENTRIES
      ensures EntryLasts(m, m3, Loc(t, j), g[n])
    {
      assert SameMap(m, m1, Loc(t, j));
    }
  }
}
