/** The copy-on-write kernel: the frame bitmap, the page share list and physical
    memory are arrays changed in place, as in memory.c, fork.c, init.c and exit.c. */
module CowKernel {
  import opened Basics
  import opened Paging
  import opened PageShareList
  import opened SharedMemory

  /** What a frame that holds entries is: the directory of a process, or one of its tables. */
  datatype Role = Dir(pid: nat) | Tab(pid: nat, dir: nat)

  function FreeFrames(mmap: seq<bool>): set<nat>
    requires |mmap| == MAXPAGE
  {
    set f: nat | RESPAGE <= f < MAXPAGE && mmap[f]
  }

  lemma FreeFrameIs(mmap: seq<bool>, f: nat)
    requires |mmap| == MAXPAGE && f in FreeFrames(mmap)
    ensures RESPAGE <= f < MAXPAGE && mmap[f]
  {
  }

  class Kernel {
    const mmap: array<bool>       // frame is available
    const psl: array<Slot>
    const mem: array<Page>        // physical memory, frame by frame
    const status: array<Status>
    const pde: array<nat>         // directory frame of each process

    ghost var x: Index            // what psl means
    ghost var role: map<nat, Role>
    ghost var locs: set<Loc>      // the live entries

    constructor (mmap: array<bool>, psl: array<Slot>, mem: array<Page>, status: array<Status>, pde: array<nat>,
                 ghost role: map<nat, Role>, ghost locs: set<Loc>)
      ensures this.mmap == mmap && this.psl == psl && this.mem == mem && this.status == status && this.pde == pde
      ensures x == Index(map[], map[], map[], map[]) && this.role == role && this.locs == locs
    {
      this.mmap, this.psl, this.mem, this.status, this.pde := mmap, psl, mem, status, pde;
      x, this.role, this.locs := Index(map[], map[], map[], map[]), role, locs;
    }

    ghost predicate Core()
      reads this, mmap, psl, mem
    {
      && Wf(psl[..], x)
      && Sharing(mem[..], mmap[..], role.Keys, locs, x.groups)
      && (forall l :: l in locs ==> l.table in role && role[l.table].Tab?)
    }

    // ---- frames

    /** memory.c `getmpage`: the lowest available frame, or -1. */
    method GetPage() returns (r: int)
      requires Core()
      modifies mmap
      ensures Core()
      ensures r == -1 <==> FreeFrames(old(mmap[..])) == {}
      ensures r != -1 ==> r in FreeFrames(old(mmap[..])) && mmap[..] == old(mmap[..])[r := false]
      ensures r != -1 ==> FreeFrames(mmap[..]) == FreeFrames(old(mmap[..])) - {r}
      ensures r != -1 ==> forall f :: f in FreeFrames(old(mmap[..])) ==> r <= f
      ensures r != -1 ==> r !in role && Unmapped(mem[..], role.Keys, locs, r) && r !in x.groups
      ensures r == -1 ==> mmap[..] == old(mmap[..])
    {
      hide Wf, Sharing, Unmapped;
      SharingSizes();
      var i := RESPAGE;
      while i < MAXPAGE
        invariant RESPAGE <= i <= MAXPAGE == mmap.Length
        invariant forall f :: RESPAGE <= f < i ==> !mmap[f]
        invariant mmap[..] == old(mmap[..])
      {
        if mmap[i] {
          FreeIsFresh(mem[..], mmap[..], role.Keys, locs, x.groups, i);
          AllocKeeps(mem[..], mmap[..], role.Keys, locs, x.groups, i);
          FreeIsUnshared(i);
          assert i in FreeFrames(mmap[..]);
          mmap[i] := false;
          return i;
        }
        i := i + 1;
      }
      return -1;
    }

    /** memory.c `freempage`: -1, and no change, for a frame that is available. */
    method FreePage(page: nat) returns (r: int)
      requires page < mmap.Length
      modifies mmap
      ensures r == (if old(mmap[page]) then -1 else 0)
      ensures mmap[..] == old(mmap[..])[page := true]
    {
      if !mmap[page] {
        mmap[page] := true;
        return 0;
      } else {
        return -1;
      }
    }

    lemma SharingSizes()
      requires Core()
      ensures mmap.Length == mem.Length == MAXPAGE && psl.Length == MAX_SHRLC
    {
    }

    lemma FreeIsUnshared(f: nat)
      requires Core() && f < MAXPAGE && mmap.Length == MAXPAGE && mmap[f]
      ensures f !in x.groups
    {
      if f in x.groups { SharedIsAllocated(f); }
    }

    lemma SharedIsAllocated(f: nat)
      requires Core() && f in x.groups
      ensures f < MAXPAGE == mmap.Length && !mmap[f]
    {
      ChainFacts(psl[..], x, f);
      assert x.groups[f][0] in locs;
      assert EntryOk(mem[..], mmap[..], role.Keys, x.groups, x.groups[f][0]);
    }

    // ---- the page share list

    /** The first search of `sharepage` and `devpage`: the header of frame `f`. */
    method FindHeader(f: nat) returns (i: nat)
      requires Wf(psl[..], x) && f in x.groups
      ensures i == x.head[f] && 1 <= i < LINKS
    {
      hide Chains, Holders, UsedSlots, Apart, ChainOk;
      ChainFacts(psl[..], x, f);
      ghost var h := x.head[f];
      i := 1;
      while psl[i].pagec != f && i < MAX_SHRLC
        invariant 1 <= i <= h < psl.Length == MAX_SHRLC
        invariant psl[h].pagec == f
        decreases MAX_SHRLC - i
      {
        i := i + 1;
      }
      OnlyHeaderNamesFrame(psl[..], x, f, i);
    }

    /** The other searches: the first free slot from `from` on. */
    method FindFree(from: nat) returns (i: nat)
      requires psl.Length == MAX_SHRLC && exists s :: s in FreeSlots(psl[..]) && from <= s
      requires 1 <= from
      ensures i in FreeSlots(psl[..]) && from <= i < LINKS
      ensures forall s :: s in FreeSlots(psl[..]) && from <= s ==> i <= s
    {
      ghost var s :| s in FreeSlots(psl[..]) && from <= s;
      i := from;
      while psl[i].pagec != 0 && i < MAX_SHRLC
        invariant from <= i <= s
        invariant forall t :: from <= t < i ==> psl[t].pagec != 0
        decreases MAX_SHRLC - i
      {
        i := i + 1;
      }
    }

    /** The slots `sharepage` takes to share what `e` maps. */
    static function SlotCost(e: Pte): nat {
      if e.AVL then 1 else 3
    }

    lemma GroupFacts(f: nat)
      requires Core() && f in x.groups
      ensures Sharers(mem[..], role.Keys, f, x.groups[f]) && DistinctTables(x.groups[f])
      ensures f !in role && |x.groups[f]| >= 2 && f != 0
      ensures forall i :: 0 <= i < |x.groups[f]| ==> x.groups[f][i] in locs
    {
      assert ChainOk(psl[..], f, x.head[f], x.members[f], x.groups[f]);
      assert EntryOk(mem[..], mmap[..], role.Keys, x.groups, x.groups[f][0]);
    }

    lemma LocFacts(l: Loc)
      requires Core() && l in locs
      ensures EntryOk(mem[..], mmap[..], role.Keys, x.groups, l)
      ensures RESPAGE <= l.table < MAXPAGE && l.table !in x.groups
    {
      assert EntryOk(mem[..], mmap[..], role.Keys, x.groups, l);
      if l.table in x.groups { GroupFacts(l.table); }
    }

    lemma AllInTables()
      requires Core()
      ensures forall q :: q in locs ==> InTables(mem[..], role.Keys, q)
    {
      forall q | q in locs ensures InTables(mem[..], role.Keys, q) { LocFacts(q); }
    }

    lemma TableFacts(t: nat)
      requires Core() && t in role
      ensures RESPAGE <= t < MAXPAGE && IsTable(mem[..], t) && t !in x.groups && Allocated(mmap[..], t)
    {
      assert Allocated(mmap[..], t);
      if t in x.groups { GroupFacts(t); }
    }

    lemma NewSharerIsApart(f: nat)
      requires Core() && f !in role
      ensures forall g :: g in x.groups ==> NotSharing(f, x.groups[g])
    {
      forall g | g in x.groups
        ensures NotSharing(f, x.groups[g])
      {
        GroupFacts(g);
      }
    }

    /** The end of a chain. */
    method LastMember(first: nat, ghost m: seq<nat>) returns (j: nat)
      requires |m| > 0 && first == m[0] && forall k :: 0 <= k < |m| ==> m[k] < psl.Length && m[k] != 0
      requires forall k, l :: 0 <= k < |m| && 0 <= l < |m| && l == k + 1 ==> psl[m[k]].next == m[l]
      requires psl[m[|m| - 1]].next == 0
      ensures j == m[|m| - 1]
    {
      j := first;
      ghost var k := 0;
      while psl[j].next != 0
        invariant 0 <= k < |m| && j == m[k]
        invariant psl[j].next == if k + 1 < |m| then m[k + 1] else 0
        decreases |m| - k
      {
        j := psl[j].next;
        k := k + 1;
        assert k + 1 < |m| ==> psl[m[k]].next == m[k + 1];
      }
    }

    /** The first branch of `sharepage`: one more member behind the last. */
    method AddSharer(base: nat, pagecb: nat, pageib: nat)
      requires Wf(psl[..], x) && psl.Length == MAX_SHRLC && base in x.groups && |FreeSlots(psl[..])| >= 1
      requires pagecb != 0 && pagecb !in x.groups && NotSharing(pagecb, x.groups[base])
      modifies this`x, psl
      ensures Wf(psl[..], x)
      ensures x.groups == old(x.groups)[base := old(x.groups)[base] + [Loc(pagecb, pageib)]]
      ensures exists s :: s in old(FreeSlots(psl[..])) && (forall r :: r in old(FreeSlots(psl[..])) ==> s <= r)
                       && psl[s] == Slot(pagecb, pageib, 0) && FreeSlots(psl[..]) == old(FreeSlots(psl[..])) - {s}
      ensures FreeSlots(psl[..]) <= old(FreeSlots(psl[..]))
      ensures |FreeSlots(psl[..])| == |old(FreeSlots(psl[..]))| - 1
    {
      hide Chains, Holders, UsedSlots, Apart, FreeSlots, Appended, ChainOk;
      ghost var p0, h, m, g, b := psl[..], x.head[base], x.members[base], x.groups[base], Loc(pagecb, pageib);
      ChainFacts(p0, x, base);
      ChainLinks(p0, base, h, m, g);
      var i := FindHeader(base);
      TakeSlot(p0, i, p0[i].(index := (p0[i].index + 1) % LINKS));
      psl[i] := psl[i].(index := (psl[i].index + 1) % LINKS);
      var j := LastMember(psl[i].next, m);
      assert FreeSlots(psl[..]) == FreeSlots(p0);
      ghost var s := Another(FreeSlots(p0), {});
      SlotRange(p0);
      i := FindFree(1);
      AppendKeepsWf(p0, x, base, b, i);
      psl[j] := psl[j].(next := i % LINKS);
      psl[i] := Slot(pagecb, pageib, 0);
      assert psl[..] == AppendSlots(p0, h, |g| + 1, j, i, b);
      GroupsAppended(x, base, b, i);
      x := Appended(x, base, b, i);
    }

    static lemma GroupsAppended(x: Index, f: nat, l: Loc, s: nat)
      requires f in x.groups && f in x.members
      ensures Appended(x, f, l, s).groups == x.groups[f := x.groups[f] + [l]]
    {
    }

    /** Its other branch: a header and two members, in the three lowest free slots. */
    method StartSharing(base: nat, pageca: nat, pageia: nat, pagecb: nat, pageib: nat)
      requires Wf(psl[..], x) && psl.Length == MAX_SHRLC && base !in x.groups && base != 0 && |FreeSlots(psl[..])| >= 3
      requires pageca != 0 && pageca !in x.groups && pagecb != 0 && pagecb !in x.groups
      requires pageca != pagecb && pageca != base && pagecb != base
      requires forall g :: g in x.groups ==> NotSharing(base, x.groups[g])
      modifies this`x, psl
      ensures Wf(psl[..], x)
      ensures x.groups == old(x.groups)[base := [Loc(pageca, pageia), Loc(pagecb, pageib)]]
      ensures var free := old(FreeSlots(psl[..]));
        exists h, s, t :: h in free && s in free && t in free && h < s < t && (forall r :: r in free ==> r == h || r == s || t <= r)
          && psl[h].pagec == base && FreeSlots(psl[..]) == free - {h, s, t}
      ensures FreeSlots(psl[..]) <= old(FreeSlots(psl[..]))
      ensures |FreeSlots(psl[..])| == |old(FreeSlots(psl[..]))| - 3
    {
      hide Wf, Chains, Holders, UsedSlots, Apart, FreeSlots;
      ghost var p0, a, b := psl[..], Loc(pageca, pageia), Loc(pagecb, pageib);
      ghost var free := FreeSlots(p0);
      ghost var s0 := Another(free, {});
      SlotRange(p0);
      var h := FindFree(1);
      assert forall r :: r in free ==> h <= r;
      TakeSlot(psl[..], h, psl[h].(pagec := base, index := 2));
      psl[h] := psl[h].(pagec := base, index := 2);
      assert FreeSlots(psl[..]) == free - {h};
      ghost var s1 := Another(free, {h});
      assert s1 in free - {h} && h + 1 <= s1;
      var s := FindFree(h + 1);
      forall r | r in free - {h} ensures s <= r { assert h + 1 <= r; }
      TakeSlot(psl[..], h, psl[h].(next := s % LINKS));
      psl[h] := psl[h].(next := s % LINKS);
      TakeSlot(psl[..], s, psl[s].(pagec := pageca, index := pageia));
      psl[s] := psl[s].(pagec := pageca, index := pageia);
      assert FreeSlots(psl[..]) == free - {h} - {s};
      ghost var s2 := Another(free, {h, s});
      assert s2 in free - {h} - {s} && s + 1 <= s2;
      var t := FindFree(s + 1);
      LowestThree(free, h, s, t);
      psl[s] := psl[s].(next := t % LINKS);
      psl[t] := Slot(pagecb, pageib, 0);
      assert psl[..] == StartSlots(p0, base, a, b, h, s, t);
      StartKeepsWf(p0, x, base, a, b, h, s, t);
      x := Started(x, base, a, b, h, s, t);
    }

    static lemma LowestThree(free: set<nat>, h: nat, s: nat, t: nat)
      requires forall r :: r in free - {h} ==> s <= r
      requires forall r :: r in free - {h} - {s} && s + 1 <= r ==> t <= r
      ensures forall r :: r in free ==> r == h || r == s || t <= r
    {
      forall r | r in free && r != h && r != s
        ensures t <= r
      {
        assert r in free - {h} && r in free - {h} - {s};
      }
    }

    static lemma SlotRange(p: seq<Slot>)
      requires |p| == MAX_SHRLC
      ensures forall s :: s in FreeSlots(p) ==> 1 <= s < LINKS
    {
    }

    static lemma TakeSlot(p: seq<Slot>, i: nat, v: Slot)
      requires |p| == MAX_SHRLC && i < |p| && v.pagec != 0
      ensures FreeSlots(p[i := v]) == FreeSlots(p) - {i}
    {
    }

    static lemma Another(free: set<nat>, taken: set<nat>) returns (s: nat)
      requires |free| > |taken|
      ensures s in free && s !in taken
    {
      if free <= taken {
        SubsetSize(free, taken);
      }
      s :| s in free && s !in taken;
    }

    static lemma {:induction false} SubsetSize(a: set<nat>, b: set<nat>)
      requires a <= b
      ensures |a| <= |b|
    {
      if a != {} {
        var s :| s in a;
        SubsetSize(a - {s}, b - {s});
      }
    }

    /** memory.c `sharepage`: entry `b`, a copy of the live entry `a`, becomes a sharer. */
    method SharePage(pageca: nat, pageia: nat, pagecb: nat, pageib: nat)
      requires Core() && Loc(pageca, pageia) in locs && Loc(pagecb, pageib) !in locs
      requires InTables(mem[..], role.Keys, Loc(pageca, pageia)) && InTables(mem[..], role.Keys, Loc(pagecb, pageib))
      requires role[pagecb].Tab? && pageca != pagecb
      requires var a, b := Entry(mem[..], Loc(pageca, pageia)), Entry(mem[..], Loc(pagecb, pageib));
        && b.P && b.base == a.base
        && (a.base in x.groups ==> NotSharing(pagecb, x.groups[a.base]))
        && psl.Length == MAX_SHRLC && |FreeSlots(psl[..])| >= SlotCost(a)
      modifies this`x, this`locs, psl, mem
      ensures Core() && psl.Length == MAX_SHRLC
      ensures locs == old(locs) + {Loc(pagecb, pageib)}
      ensures mem[..] == ShareMem(old(mem[..]), Loc(pageca, pageia), Loc(pagecb, pageib))
      ensures x.groups == ShareGroups(old(x.groups), old(Entry(mem[..], Loc(pageca, pageia))).base,
                                      Loc(pageca, pageia), Loc(pagecb, pageib))
      ensures FreeSlots(psl[..]) <= old(FreeSlots(psl[..]))
      ensures |FreeSlots(psl[..])| == |old(FreeSlots(psl[..]))| - SlotCost(old(Entry(mem[..], Loc(pageca, pageia))))
    {
      hide Wf, Sharing, FreeSlots, Appended, Started, AppendSlots, StartSlots;
      ghost var a, b := Loc(pageca, pageia), Loc(pagecb, pageib);
      LocFacts(a);
      TableFacts(pagecb);
      var base := mem[pageca].entries[pageia].base;
      ShareKeeps(mem[..], mmap[..], role.Keys, locs, x.groups, a, b);
      if mem[pageca].entries[pageia].AVL {
        AddSharer(base, pagecb, pageib);
      } else {
        NewSharerIsApart(base);
        StartSharing(base, pageca, pageia, pagecb, pageib);
      }
      mem[pageca] := Table(mem[pageca].entries[pageia := mem[pageca].entries[pageia].(AVL := true, RW := false)]);
      mem[pagecb] := Table(mem[pagecb].entries[pageib := mem[pagecb].entries[pageib].(AVL := true, RW := false)]);
      locs := locs + {b};
    }

    /** The slot whose link leads to the member of table `pagec`. */
    method BeforeMember(i: nat, pagec: nat, ghost m: seq<nat>, ghost g: seq<Loc>, ghost k: nat) returns (j: nat)
      requires k < |m| == |g| && i < psl.Length && psl[i].next == m[0] && g[k].table == pagec
      requires forall n :: 0 <= n < |m| ==> m[n] < psl.Length && psl[m[n]].pagec == g[n].table
      requires forall n, l :: 0 <= n < |m| && 0 <= l < |m| && l == n + 1 ==> psl[m[n]].next == m[l]
      requires forall n, l :: 0 <= n < l < |g| ==> g[n].table != g[l].table
      ensures j == (if k == 0 then i else m[k - 1]) && psl[j].next == m[k]
    {
      j := i;
      ghost var n := 0;
      while psl[psl[j].next].pagec != pagec
        invariant 0 <= n <= k && j == (if n == 0 then i else m[n - 1]) && psl[j].next == m[n]
        decreases k - n
      {
        j := psl[j].next;
        n := n + 1;
        assert psl[m[n - 1]].next == m[n];
      }
    }

    /** The branch of `devpage` for three or more sharers: member `k`, the one of
        table `pagec`, is unchained. */
    method Unchain(i: nat, pagec: nat, ghost f: nat, ghost k: nat)
      requires Wf(psl[..], x) && psl.Length == MAX_SHRLC && f in x.groups && i == x.head[f]
      requires |x.groups[f]| > 2 && k < |x.groups[f]| && x.groups[f][k].table == pagec
      modifies this`x, psl
      ensures Wf(psl[..], x)
      ensures x.groups == UnshareGroups(old(x.groups), f, k)
      ensures old(FreeSlots(psl[..])) <= FreeSlots(psl[..])
      ensures |FreeSlots(psl[..])| == old(|FreeSlots(psl[..])|) + 1
    {
      hide Chains, Holders, UsedSlots, Apart, FreeSlots, RemoveAt, ChainOk;
      ChainFacts(psl[..], x, f);
      ghost var p0, h, m, g := psl[..], x.head[f], x.members[f], x.groups[f];
      ChainLinks(p0, f, h, m, g);
      CountFits(m);
      psl[i] := psl[i].(index := (psl[i].index + LINKS - 1) % LINKS);
      var j := BeforeMember(i, pagec, m, g, k);
      psl[psl[j].next] := psl[psl[j].next].(pagec := 0);
      psl[j] := psl[j].(next := psl[psl[j].next].next);
      DropKeepsWf(p0, x, f, k);
      assert psl[..] == DropSlots(p0, h, |g| - 1, if k == 0 then h else m[k - 1], m[k]);
      assert m[k] !in FreeSlots(p0) by { InUse(p0, m[k]); }
      x := Dropped(x, f, k);
    }

    static lemma InUse(p: seq<Slot>, s: nat)
      requires |p| == MAX_SHRLC && s < |p| && p[s].pagec != 0
      ensures s !in FreeSlots(p)
    {
    }

    /** An entry becomes private and writable. */
    method Privatise(pagec: nat, pagei: nat)
      requires InTables(mem[..], role.Keys, Loc(pagec, pagei))
      modifies mem
      ensures mem[..] == SetEntry(old(mem[..]), Loc(pagec, pagei),
                                  Entry(old(mem[..]), Loc(pagec, pagei)).(AVL := false, RW := true))
    {
      mem[pagec] := Table(mem[pagec].entries[pagei := mem[pagec].entries[pagei].(AVL := false, RW := true)]);
    }

    /** The branch of `devpage` for two sharers: the other one becomes private and
        the three slots are given back. */
    method EndSharing(i: nat, pagec: nat, ghost f: nat, ghost k: nat)
      requires Wf(psl[..], x) && psl.Length == MAX_SHRLC && f in x.groups && i == x.head[f]
      requires |x.groups[f]| == 2 && k < 2 && x.groups[f][k].table == pagec
      requires InTables(mem[..], role.Keys, x.groups[f][1 - k])
      modifies this`x, psl, mem
      ensures Wf(psl[..], x)
      ensures x.groups == old(x.groups) - {f}
      ensures var o := old(x.groups[f][1 - k]);
        mem[..] == SetEntry(old(mem[..]), o, Entry(old(mem[..]), o).(AVL := false, RW := true))
      ensures old(FreeSlots(psl[..])) <= FreeSlots(psl[..])
      ensures |FreeSlots(psl[..])| == old(|FreeSlots(psl[..])|) + 3
    {
      hide Chains, Holders, UsedSlots, Apart, FreeSlots;
      ChainFacts(psl[..], x, f);
      ghost var p0, m, g := psl[..], x.members[f], x.groups[f];
      var j := psl[i].next;
      assert j == m[0] && psl[j].next == m[1];
      if psl[j].pagec == pagec {
        assert k == 0;
        Privatise(psl[psl[j].next].pagec, psl[psl[j].next].index);
      } else {
        assert k == 1;
        Privatise(psl[j].pagec, psl[j].index);
      }
      EndKeepsWf(p0, x, f);
      psl[psl[j].next] := psl[psl[j].next].(pagec := 0);
      psl[j] := psl[j].(pagec := 0);
      psl[i] := psl[i].(pagec := 0);
      assert psl[..] == EndSlots(p0, i, m[0], m[1]);
      InUse(p0, i); InUse(p0, m[0]); InUse(p0, m[1]);
      x := Ended(x, f);
    }

    /** memory.c `devpage`: the sharer at `pagec`, `pagei` becomes private. It stops to
        be live: it still maps the frame, which the other sharers keep. */
    method DevPage(pagec: nat, pagei: nat) returns (ghost k: nat)
      requires Core() && Loc(pagec, pagei) in locs
      requires InTables(mem[..], role.Keys, Loc(pagec, pagei)) && Entry(mem[..], Loc(pagec, pagei)).AVL
      modifies this`x, this`locs, psl, mem
      ensures Core()
      ensures locs == old(locs) - {Loc(pagec, pagei)}
      ensures TakenOut(old(mem[..]), role.Keys, old(x.groups), Loc(pagec, pagei), k, mem[..], x.groups)
      ensures SameMaps(old(mem[..]), mem[..], role.Keys)
      ensures forall t :: t in role && role[t].Dir? ==> mem[t] == old(mem[t])
      ensures psl.Length == MAX_SHRLC && |FreeSlots(psl[..])| >= old(|FreeSlots(psl[..])|)
    {
      hide Wf, Sharing, FreeSlots, UnshareMem, UnshareGroups, SameMaps, SetEntry;
      ghost var l := Loc(pagec, pagei);
      k := DevFacts(l);
      var base := mem[pagec].entries[pagei].base;
      ghost var g, mem0 := x.groups[base], mem[..];
      SharingSizes();
      HeaderCounts(psl[..], x, base);
      var i := FindHeader(base);
      if psl[i].index == 2 {
        EndSharing(i, pagec, base, k);
      } else {
        Unchain(i, pagec, base, k);
      }
      Privatise(pagec, pagei);
      assert mem[..] == UnshareMem(mem0, g, k);
      locs := locs - {l};
    }

    /** Member `k` of its sharers is `l`; memory and sharers without it are as they should be. */
    static ghost predicate TakesOut(m: seq<Page>, mmap: seq<bool>, role: map<nat, Role>, locs: set<Loc>,
                                    groups: map<nat, seq<Loc>>, l: Loc, k: nat) {
      && InTables(m, role.Keys, l) && Entry(m, l).base in groups
      && var f, g := Entry(m, l).base, groups[Entry(m, l).base];
        && Sharers(m, role.Keys, f, g) && DistinctTables(g)
        && k < |g| && g[k] == l && |g| >= 2
        && var n := UnshareMem(m, g, k);
          && Sharing(n, mmap, role.Keys, locs - {l}, UnshareGroups(groups, f, k))
          && SameMaps(m, n, role.Keys) && (forall t :: t in role && role[t].Dir? ==> t < |n| == |m| && n[t] == m[t])
          && (if |g| == 2 then
                var n1 := SetEntry(m, g[1 - k], Entry(m, g[1 - k]).(AVL := false, RW := true));
                && UnshareGroups(groups, f, k) == groups - {f}
                && InTables(n1, role.Keys, l) && n == SetEntry(n1, l, Entry(n1, l).(AVL := false, RW := true))
              else n == SetEntry(m, l, Entry(m, l).(AVL := false, RW := true)))
    }

    /** Taking a sharer out as a change of values. */
    lemma DevFacts(l: Loc) returns (k: nat)
      requires Core() && l in locs && InTables(mem[..], role.Keys, l) && Entry(mem[..], l).AVL
      ensures l.table < mem.Length && TakesOut(mem[..], mmap[..], role, locs, x.groups, l, k)
    {
      hide Wf, Sharing, FreeSlots, UnshareMem, UnshareGroups, SameMaps, SetEntry;
      LocFacts(l);
      var m, f := mem[..], Entry(mem[..], l).base;
      GroupFacts(f);
      var g := x.groups[f];
      k :| 0 <= k < |g| && g[k] == l;
      UnshareKeeps(m, mmap[..], role.Keys, locs, x.groups, f, k);
      TablesFacts();
      UnshareMaps(m, role.Keys, g, k);
      UnshareSteps(m, g, k);
      UnshareGroupsSteps(x.groups, f, k);
      DirsKept(m, g, k);
    }

    static lemma UnshareSteps(m: seq<Page>, g: seq<Loc>, k: nat)
      requires k < |g| && forall i :: 0 <= i < |g| ==> IsTable(m, g[i].table) && g[i].entry < ENTRIES
      ensures var n := if |g| == 2 then SetEntry(m, g[1 - k], Entry(m, g[1 - k]).(AVL := false, RW := true)) else m;
        IsTable(n, g[k].table) && UnshareMem(m, g, k) == SetEntry(n, g[k], Entry(n, g[k]).(AVL := false, RW := true))
    {
    }

    static lemma UnshareGroupsSteps(groups: map<nat, seq<Loc>>, f: nat, k: nat)
      requires f in groups && k < |groups[f]|
      ensures |groups[f]| == 2 ==> UnshareGroups(groups, f, k) == groups - {f}
    {
    }

    lemma DirsKept(m: seq<Page>, g: seq<Loc>, k: nat)
      requires k < |g| && forall i :: 0 <= i < |g| ==> IsTable(m, g[i].table) && g[i].entry < ENTRIES
      requires forall i :: 0 <= i < |g| ==> g[i].table in role && role[g[i].table].Tab?
      requires forall t :: t in role ==> t < |m|
      ensures var n := UnshareMem(m, g, k);
        |n| == |m| && forall t :: t in role && role[t].Dir? ==> n[t] == m[t]
    {
    }

    lemma TablesFacts()
      requires Core()
      ensures forall t :: t in role ==> IsTable(mem[..], t)
    {
    }

    static lemma HeaderCounts(p: seq<Slot>, x: Index, f: nat)
      requires Wf(p, x) && f in x.groups
      ensures p[x.head[f]].index == |x.groups[f]|
    {
      ChainFacts(p, x, f);
    }

    // ---- copying pages

    /** memory.c `pagecpy`. */
    method PageCopy(dest: nat, src: nat)
      requires dest < mem.Length && src < mem.Length
      modifies mem
      ensures mem[..] == old(mem[..])[dest := old(mem[..])[src]]
    {
      mem[dest] := mem[src];
    }

    /** Gives a private entry that is not live a frame of its own with the contents
        of frame `src`, as fork.c does for the PINF page and for the kernel stack, and
        init.c for a page written to. */
    method FreshCopy(t: nat, j: nat, src: nat) returns (ghost f: nat)
      requires Core() && mmap.Length == MAXPAGE && FreeFrames(mmap[..]) != {}
      requires Loc(t, j) !in locs && InTables(mem[..], role.Keys, Loc(t, j)) && role[t].Tab?
      requires var e := Entry(mem[..], Loc(t, j)); e.P && !e.AVL && e.RW
      requires src !in role && IsData(mem[..], src) && !mmap[src]
      modifies this`locs, mmap, mem
      ensures Core()
      ensures locs == old(locs) + {Loc(t, j)}
      ensures f in FreeFrames(old(mmap[..])) && mmap[..] == old(mmap[..])[f := false]
      ensures FreeFrames(mmap[..]) == FreeFrames(old(mmap[..])) - {f}
      ensures f !in role && |old(mem[..])| == MAXPAGE
      ensures var e := Entry(old(mem[..]), Loc(t, j));
        mem[..] == SetEntry(old(mem[..]), Loc(t, j), e.(base := f))[f := old(mem[..])[src]]
    {
      hide Wf, Sharing, SetEntry, Unmapped;
      SharingSizes();
      TableFacts(t);
      ghost var l, m0 := Loc(t, j), mem[..];
      var page := GetPage();
      f := page;
      RewriteKeeps(m0, mmap[..], role.Keys, locs, x.groups, l, mem[t].entries[j].(base := page));
      SetEntryIs(m0, l, mem[t].entries[j].(base := page));
      mem[t] := Table(mem[t].entries[j := mem[t].entries[j].(base := page)]);
      ghost var m1 := mem[..];
      RewriteUnmaps(m0, l, mem[t].entries[j], f);
      FillKeeps(m1, mmap[..], role.Keys, locs, x.groups, f, m1[src]);
      FillUnmaps(m1, f, m1[src]);
      PageCopy(page, src);
      AdoptKeeps(mem[..], mmap[..], role.Keys, locs, x.groups, l);
      locs := locs + {l};
    }

    static lemma SetEntryIs(m: seq<Page>, l: Loc, e: Pte)
      requires IsTable(m, l.table) && l.entry < ENTRIES
      ensures SetEntry(m, l, e) == m[l.table := Table(m[l.table].entries[l.entry := e])]
    {
    }

    lemma RewriteUnmaps(m: seq<Page>, l: Loc, e: Pte, f: nat)
      requires Unmapped(m, role.Keys, locs, f) && l !in locs && InTables(m, role.Keys, l)
      ensures Unmapped(SetEntry(m, l, e), role.Keys, locs, f)
    {
      var n := SetEntry(m, l, e);
      forall k | k in locs && InTables(n, role.Keys, k)
        ensures Entry(n, k).base != f
      {
        assert InTables(m, role.Keys, k);
      }
    }

    lemma FillUnmaps(m: seq<Page>, f: nat, page: Page)
      requires Unmapped(m, role.Keys, locs, f) && f !in role && f < |m|
      ensures Unmapped(m[f := page], role.Keys, locs, f)
    {
      var n := m[f := page];
      forall k | k in locs && InTables(n, role.Keys, k)
        ensures Entry(n, k).base != f
      {
        assert InTables(m, role.Keys, k);
      }
    }
  }
}
