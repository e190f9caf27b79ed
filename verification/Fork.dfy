/** fork.c: a child gets its own directory and tables; pages become shared. */
module Fork {
  import opened Paging
  import opened PageShareList
  import opened SharedMemory
  import opened CowKernel
  import opened AddressSpaces

  /** Share-list slots needed to share the present entries of a table from `j` on. */
  function SlotNeed(es: seq<Pte>, j: nat): nat
    decreases |es| - j
  {
    if j >= |es| then 0
    else (if es[j].P then Kernel.SlotCost(es[j]) else 0) + SlotNeed(es, j + 1)
  }

  /** The page the kernel passes arguments in is entry 0 of the first user table; it is copied. */
  function FirstShared(i: nat): nat {
    if i == USEPAGE then 1 else 0
  }

  ghost predicate IsPinf(i: nat, j: nat) {
    i == USEPAGE && j == 0
  }

  /** Entry `j` of table `nt` maps what entry `j` of `ct` mapped: the same frame, or
      for the argument page another frame of the same contents. */
  ghost predicate Copied(m0: seq<Page>, ct: nat, m: seq<Page>, nt: nat, i: nat, j: nat)
    requires IsTable(m0, ct) && IsTable(m, nt) && j < ENTRIES
  {
    var e, d := Entry(m0, Loc(ct, j)), Entry(m, Loc(nt, j));
    && e.P == d.P && e.US == d.US
    && (e.P ==> IsData(m0, e.base) && d.base < |m| && m[d.base] == m0[e.base] && (IsPinf(i, j) || d.base == e.base))
  }

  /** Two live entries of one table never map the same frame. */
  lemma SameTableDistinct(k: Kernel, l: Loc, m: Loc)
    requires k.Core() && l in k.locs && m in k.locs && l.table == m.table
    requires InTables(k.mem[..], k.role.Keys, l) && InTables(k.mem[..], k.role.Keys, m)
    requires Entry(k.mem[..], l).base == Entry(k.mem[..], m).base
    ensures l == m
  {
    hide Wf, Sharing;
    if l != m {
      k.LocFacts(l);
      k.LocFacts(m);
      SharersOf(k, l, m);
      k.GroupFacts(Entry(k.mem[..], l).base);
    }
  }

  /** Two live entries that map the same frame are among its sharers. */
  lemma SharersOf(k: Kernel, l: Loc, m: Loc)
    requires k.Core() && l in k.locs && m in k.locs && l != m
    requires BothMap(k.mem[..], k.role.Keys, l, m)
    ensures var f := Entry(k.mem[..], l).base; f in k.x.groups && l in k.x.groups[f] && m in k.x.groups[f]
  {
    k.LocFacts(l);
    k.LocFacts(m);
  }

  /** The memory, what its frames are and which of its entries share one. */
  datatype Snap = Snap(mem: seq<Page>, mmap: seq<bool>, role: map<nat, Role>, locs: set<Loc>, groups: map<nat, seq<Loc>>)

  /** The tables that existed keep their entries; only the parent's `ct` may change
      AVL and R_W, and only before entry `j`. */
  ghost predicate ParentKept(m0: seq<Page>, m: seq<Page>, role0: map<nat, Role>, ct: nat, j: nat)
    requires |m0| == |m| && ct in role0
  {
    && (forall t :: t in role0 ==> IsTable(m0, t) && IsTable(m, t))
    && (forall t :: t in role0 && t != ct ==> m[t] == m0[t])
    && (forall q :: 0 <= q < ENTRIES ==> SameMap(m0, m, Loc(ct, q)))
    && (forall q :: j <= q < ENTRIES ==> Entry(m, Loc(ct, q)) == Entry(m0, Loc(ct, q)))
  }

  ghost predicate ChildCopied(m0: seq<Page>, m: seq<Page>, ct: nat, nt: nat, i: nat, j: nat)
    requires IsTable(m0, ct) && IsTable(m, nt) && j <= ENTRIES
  {
    && (forall q :: j <= q < ENTRIES ==> Entry(m, Loc(nt, q)) == Entry(m0, Loc(ct, q)))
    && (forall q :: 0 <= q < j ==> Copied(m0, ct, m, nt, i, q))
  }

  /** The live entries are the old ones and those of `nt` before `j`. */
  ghost predicate LocsGrow(locs0: set<Loc>, m: seq<Page>, locs: set<Loc>, nt: nat, j: nat)
    requires IsTable(m, nt) && j <= ENTRIES
  {
    forall l :: l in locs <==> l in locs0 || (l.table == nt && l.entry < j && Entry(m, l).P)
  }

  /** What the loop over one table has done before entry `j`. */
  ghost predicate TableLoop(s: Snap, m: seq<Page>, locs: set<Loc>, ct: nat, nt: nat, i: nat, j: nat) {
    && |s.mem| == |m| == |s.mmap| == MAXPAGE && ct in s.role && nt !in s.role && j <= ENTRIES
    && nt < MAXPAGE && s.mmap[nt] && IsTable(s.mem, ct) && IsTable(m, nt)
    && ParentKept(s.mem, m, s.role, ct, j)
    && ChildCopied(s.mem, m, ct, nt, i, j)
    && DataKept(s.mem, s.mmap, s.role, m)
    && LocsGrow(s.locs, m, locs, nt, j)
    && (i == USEPAGE && j > 0 ==> Entry(m, Loc(nt, 0)).base < MAXPAGE && s.mmap[Entry(m, Loc(nt, 0)).base])
  }

  /** The new table shares nothing yet with entry `j`. */
  lemma NewTableApart(k: Kernel, s: Snap, ct: nat, nt: nat, i: nat, j: nat)
    requires k.Core() && j < ENTRIES && k.role.Keys == s.role.Keys + {nt}
    requires TableLoop(s, k.mem[..], k.locs, ct, nt, i, j)
    requires forall q :: 0 <= q < ENTRIES && Entry(s.mem, Loc(ct, q)).P ==> Loc(ct, q) in s.locs
    requires Entry(s.mem, Loc(ct, j)).P && var b := Entry(s.mem, Loc(ct, j)).base; b < MAXPAGE && !s.mmap[b]
    requires !IsPinf(i, j) && forall l :: l in s.locs ==> l.table != nt
    ensures var f := Entry(s.mem, Loc(ct, j)).base; f in k.x.groups ==> NotSharing(nt, k.x.groups[f])
  {
    hide Wf, Sharing, DataKept;
    var f := Entry(s.mem, Loc(ct, j)).base;
    if f in k.x.groups {
      k.GroupFacts(f);
      forall a | 0 <= a < |k.x.groups[f]|
        ensures k.x.groups[f][a].table != nt
      {
        var l := k.x.groups[f][a];
        if l.table == nt {
          assert l in k.locs && Entry(k.mem[..], l).base == f;
          EarlierEntryDiffers(k, s, ct, nt, i, j, l.entry);
        }
      }
    }
  }

  lemma EarlierEntryDiffers(k: Kernel, s: Snap, ct: nat, nt: nat, i: nat, j: nat, q: nat)
    requires k.Core() && q < ENTRIES && j < ENTRIES && k.role.Keys == s.role.Keys + {nt}
    requires TableLoop(s, k.mem[..], k.locs, ct, nt, i, j)
    requires forall q :: 0 <= q < ENTRIES && Entry(s.mem, Loc(ct, q)).P ==> Loc(ct, q) in s.locs
    requires Entry(s.mem, Loc(ct, j)).P && var b := Entry(s.mem, Loc(ct, j)).base; b < MAXPAGE && !s.mmap[b]
    requires !IsPinf(i, j) && Loc(nt, q) in k.locs && Loc(nt, q) !in s.locs
    ensures Entry(k.mem[..], Loc(nt, q)).base != Entry(s.mem, Loc(ct, j)).base
  {
    hide Wf, Sharing, DataKept;
    var m := k.mem[..];
    assert q < j && Copied(s.mem, ct, m, nt, i, q);
    if !IsPinf(i, q) && Entry(m, Loc(nt, q)).base == Entry(s.mem, Loc(ct, j)).base {
      assert SameMap(s.mem, m, Loc(ct, q)) && SameMap(s.mem, m, Loc(ct, j));
      SameTableDistinct(k, Loc(ct, q), Loc(ct, j));
    }
  }

  // ---- one entry at a time

  lemma SkipEntry(s: Snap, m: seq<Page>, locs: set<Loc>, ct: nat, nt: nat, i: nat, j: nat)
    requires TableLoop(s, m, locs, ct, nt, i, j) && j < ENTRIES
    requires !Entry(s.mem, Loc(ct, j)).P && !IsPinf(i, j)
    ensures TableLoop(s, m, locs, ct, nt, i, j + 1)
  {
    hide DataKept;
    assert Copied(s.mem, ct, m, nt, i, j) by {
      assert Entry(m, Loc(nt, j)) == Entry(s.mem, Loc(ct, j));
    }
  }

  /** The argument page gets frame `f`, free so far, with the parent's contents. */
  lemma CopyEntry(s: Snap, m: seq<Page>, locs: set<Loc>, ct: nat, nt: nat, i: nat, f: nat)
    requires TableLoop(s, m, locs, ct, nt, i, 0) && IsPinf(i, 0)
    requires Entry(s.mem, Loc(ct, 0)).P && f < MAXPAGE && s.mmap[f] && f != nt && f !in s.role
    requires var b := Entry(s.mem, Loc(ct, 0)).base; IsData(s.mem, b) && !s.mmap[b] && b !in s.role
    ensures var e := Entry(m, Loc(nt, 0));
      var p := SetEntry(m, Loc(nt, 0), e.(base := f))[f := m[Entry(m, Loc(ct, 0)).base]];
      TableLoop(s, p, locs + {Loc(nt, 0)}, ct, nt, i, 1)
  {
    var e := Entry(m, Loc(nt, 0));
    var p := SetEntry(m, Loc(nt, 0), e.(base := f))[f := m[Entry(m, Loc(ct, 0)).base]];
    assert e == Entry(s.mem, Loc(ct, 0)) == Entry(m, Loc(ct, 0));
    assert Copied(s.mem, ct, p, nt, i, 0);
  }

  lemma ShareEntry(s: Snap, m: seq<Page>, locs: set<Loc>, ct: nat, nt: nat, i: nat, j: nat)
    requires TableLoop(s, m, locs, ct, nt, i, j) && j < ENTRIES
    requires Entry(s.mem, Loc(ct, j)).P && !IsPinf(i, j)
    requires var b := Entry(s.mem, Loc(ct, j)).base; IsData(s.mem, b) && !s.mmap[b] && b !in s.role
    ensures TableLoop(s, ShareMem(m, Loc(ct, j), Loc(nt, j)), locs + {Loc(nt, j)}, ct, nt, i, j + 1)
  {
    var p := ShareMem(m, Loc(ct, j), Loc(nt, j));
    ShareMaps(m, {ct, nt}, Loc(ct, j), Loc(nt, j));
    hide ShareMem;
    assert Entry(m, Loc(nt, j)) == Entry(s.mem, Loc(ct, j));
    forall q | 0 <= q < j + 1
      ensures Copied(s.mem, ct, p, nt, i, q)
    {
      assert q < j ==> Copied(s.mem, ct, m, nt, i, q);
      assert SameMap(m, p, Loc(nt, q));
    }
  }

  /** Every present entry of the parent's table is live and maps a data frame in use. */
  ghost predicate TableReady(m0: seq<Page>, mmap0: seq<bool>, role0: map<nat, Role>, locs0: set<Loc>, ct: nat)
    requires |m0| == |mmap0| && IsTable(m0, ct)
  {
    forall q :: 0 <= q < ENTRIES && Entry(m0, Loc(ct, q)).P ==>
      && Loc(ct, q) in locs0
      && var b := Entry(m0, Loc(ct, q)).base; IsData(m0, b) && !mmap0[b] && b !in role0
  }

  /** The bitmap once the argument page of table `nt` has its frame. */
  function WithPinf(mmap: seq<bool>, m: seq<Page>, nt: nat, taken: bool): seq<bool> {
    if taken && IsTable(m, nt) && Entry(m, Loc(nt, 0)).base < |mmap| then mmap[Entry(m, Loc(nt, 0)).base := false] else mmap
  }

  lemma NoPinf(mmap: seq<bool>, m: seq<Page>, nt: nat)
    ensures WithPinf(mmap, m, nt, false) == mmap
  {
  }

  lemma PinfTaken(mmap: seq<bool>, m: seq<Page>, nt: nat, f: nat, page: Page)
    requires IsTable(m, nt) && f < |m| && f != nt && f < |mmap|
    ensures WithPinf(mmap, SetEntry(m, Loc(nt, 0), Entry(m, Loc(nt, 0)).(base := f))[f := page], nt, true) == mmap[f := false]
  {
  }

  lemma PinfStays(mmap: seq<bool>, m: seq<Page>, ct: nat, nt: nat, j: nat, taken: bool)
    requires IsTable(m, ct) && IsTable(m, nt) && ct != nt && j < ENTRIES && (taken ==> j > 0)
    ensures WithPinf(mmap, ShareMem(m, Loc(ct, j), Loc(nt, j)), nt, taken) == WithPinf(mmap, m, nt, taken)
  {
  }

  /** fork.c lines 53-64: the loop over one table. */
  method ShareTable(k: Kernel, ct: nat, nt: nat, i: nat, ghost s: Snap)
    requires k.Core() && k.role.Keys == s.role.Keys + {nt} && k.role[nt].Tab? && ct in s.role && k.role[ct].Tab?
    requires TableLoop(s, k.mem[..], k.locs, ct, nt, i, 0)
    requires TableReady(s.mem, s.mmap, s.role, s.locs, ct)
    requires forall l :: l in s.locs ==> l.table in s.role
    requires i == USEPAGE ==> Entry(s.mem, Loc(ct, 0)).P && !Entry(s.mem, Loc(ct, 0)).AVL && Entry(s.mem, Loc(ct, 0)).RW
    requires k.mmap.Length == MAXPAGE && k.psl.Length == MAX_SHRLC
    requires forall f :: 0 <= f < MAXPAGE && k.mmap[f] ==> s.mmap[f]
    requires i == USEPAGE ==> FreeFrames(k.mmap[..]) != {}
    requires |FreeSlots(k.psl[..])| >= SlotNeed(s.mem[ct].entries, FirstShared(i))
    modifies k`x, k`locs, k.psl, k.mmap, k.mem
    ensures k.Core() && k.mmap.Length == MAXPAGE && k.psl.Length == MAX_SHRLC
    ensures TableLoop(s, k.mem[..], k.locs, ct, nt, i, ENTRIES)
    ensures forall f :: 0 <= f < MAXPAGE && k.mmap[f] ==> s.mmap[f]
    ensures |FreeFrames(k.mmap[..])| >= |old(FreeFrames(k.mmap[..]))| - FirstShared(i)
    ensures |FreeSlots(k.psl[..])| >= |old(FreeSlots(k.psl[..]))| - SlotNeed(s.mem[ct].entries, FirstShared(i))
    ensures k.mmap[..] == WithPinf(old(k.mmap[..]), k.mem[..], nt, i == USEPAGE)
  {
    hide Wf, Sharing, ParentKept, ChildCopied, DataKept, LocsGrow, FreeSlots, FreeFrames, ShareMem, SetEntry, Copied, WithPinf;
    var j := 0;
    ghost var slots, mmap1 := |FreeSlots(k.psl[..])|, k.mmap[..];
    NoPinf(mmap1, k.mem[..], nt);
    while j < ENTRIES
      invariant 0 <= j <= ENTRIES
      invariant k.Core() && k.mmap.Length == MAXPAGE && k.psl.Length == MAX_SHRLC
      invariant TableLoop(s, k.mem[..], k.locs, ct, nt, i, j)
      invariant forall f :: 0 <= f < MAXPAGE && k.mmap[f] ==> s.mmap[f]
      invariant i == USEPAGE && j == 0 ==> FreeFrames(k.mmap[..]) == old(FreeFrames(k.mmap[..]))
      invariant |FreeFrames(k.mmap[..])| >= |old(FreeFrames(k.mmap[..]))| - (if j > 0 then FirstShared(i) else 0)
      invariant var from := if IsPinf(i, j) then 1 else j;
        |FreeSlots(k.psl[..])| >= slots - SlotNeed(s.mem[ct].entries, FirstShared(i)) + SlotNeed(s.mem[ct].entries, from)
      invariant k.mmap[..] == WithPinf(mmap1, k.mem[..], nt, i == USEPAGE && j > 0)
    {
      LoopFacts(s, k.mem[..], k.locs, ct, nt, i, j);
      k.TablesFacts();
      if i == USEPAGE && j == 0 {
        CopyEntryFacts(s, k.mem[..], k.locs, ct, nt, i);
        ghost var m, l, mmap := k.mem[..], k.locs, k.mmap[..];
        ghost var f := k.FreshCopy(nt, 0, k.mem[ct].entries[0].base);
        FreeFrameIs(mmap, f);
        CopyEntry(s, m, l, ct, nt, i, f);
        NoPinf(mmap1, m, nt);
        PinfTaken(mmap1, m, nt, f, m[m[ct].entries[0].base]);
      } else if k.mem[ct].entries[j].P {
        NewTableApart(k, s, ct, nt, i, j);
        ShareEntry(s, k.mem[..], k.locs, ct, nt, i, j);
        PinfStays(mmap1, k.mem[..], ct, nt, j, i == USEPAGE && j > 0);
        k.SharePage(ct, j, nt, j);
      } else {
        SkipEntry(s, k.mem[..], k.locs, ct, nt, i, j);
      }
      j := j + 1;
    }
  }

  lemma LoopFacts(s: Snap, m: seq<Page>, locs: set<Loc>, ct: nat, nt: nat, i: nat, j: nat)
    requires TableLoop(s, m, locs, ct, nt, i, j) && j < ENTRIES
    requires forall l :: l in s.locs ==> l.table in s.role
    ensures IsTable(m, ct) && IsTable(m, nt) && s.locs <= locs && Loc(nt, j) !in locs && ct != nt
    ensures Entry(m, Loc(ct, j)) == Entry(m, Loc(nt, j)) == Entry(s.mem, Loc(ct, j))
  {
  }

  lemma CopyEntryFacts(s: Snap, m: seq<Page>, locs: set<Loc>, ct: nat, nt: nat, i: nat)
    requires TableLoop(s, m, locs, ct, nt, i, 0)
    requires TableReady(s.mem, s.mmap, s.role, s.locs, ct) && Entry(s.mem, Loc(ct, 0)).P
    ensures var b := Entry(s.mem, Loc(ct, 0)).base; IsData(m, b) && IsData(s.mem, b) && !s.mmap[b] && b !in s.role && b != nt
  {
  }
}
