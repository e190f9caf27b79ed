/** init.c, case 7 of the page fault: a user write to a present read-only page,
    and the user write itself. */
module Fault {
  import opened Basics
  import opened Paging
  import opened PageShareList
  import opened SharedMemory
  import opened CowKernel
  import opened AddressSpaces

  const USEBASE := 0x40000000

  function PageC(a: nat): nat { a / 0x400000 }
  function PageI(a: nat): nat { a % 0x400000 / PAGESIZE }

  lemma UserAddress(a: nat)
    requires USEBASE <= a < 0x1_0000_0000
    ensures USEPAGE <= PageC(a) < ENTRIES && PageI(a) < ENTRIES
    ensures PageC(a) == a / 0x400000 && PageI(a) == a / 0x1000 % 0x400
  {
    assert a % 0x400000 / 0x1000 == a / 0x1000 % 0x400;
  }

  /** The byte at an address is the one of the page its directory and table index name. */
  lemma LoadIsRead(m: seq<Page>, d: nat, x: nat)
    requires x < 0x1_0000_0000
    ensures PageC(x) < ENTRIES && PageI(x) < ENTRIES
    ensures Load(m, d, x) ==
      match Read(m, d, PageC(x), PageI(x))
      case Some(Mapped(user, Bytes(b))) => if x % PAGESIZE < |b| then Some(Cell(user, b[x % PAGESIZE])) else None
      case _ => None
  {
    assert x % 0x400000 / 0x1000 == x / 0x1000 % 0x400;
  }

  /** An address is its two indexes and the place in the page. */
  lemma SameAddress(x: nat, a: nat)
    ensures x == a <==> PageC(x) == PageC(a) && PageI(x) == PageI(a) && x % PAGESIZE == a % PAGESIZE
  {
    hide PageC, PageI;
    AddressParts(x);
    AddressParts(a);
  }

  lemma AddressParts(x: nat)
    ensures x == PageC(x) * 0x400000 + PageI(x) * 0x1000 + x % PAGESIZE
  {
    var r := x % 0x400000;
    assert x == x / 0x400000 * 0x400000 + r;
    assert r == r / 0x1000 * 0x1000 + r % 0x1000 && r % 0x1000 == x % 0x1000;
  }

  /** Reading the same pages is seeing the same bytes. */
  lemma SameLoads(m: seq<Page>, d: nat, m3: seq<Page>, d3: nat)
    requires forall i, j :: USEPAGE <= i < ENTRIES && 0 <= j < ENTRIES ==> Read(m3, d3, i, j) == Read(m, d, i, j)
    ensures forall x :: USEBASE <= x < 0x1_0000_0000 ==> Load(m3, d3, x) == Load(m, d, x)
  {
    hide Read, Load, PageC, PageI;
    forall x | USEBASE <= x < 0x1_0000_0000
      ensures Load(m3, d3, x) == Load(m, d, x)
    {
      UserAddress(x);
      LoadIsRead(m, d, x);
      LoadIsRead(m3, d3, x);
    }
  }

  /** Taking the sharer `g[n]` out, filling frame `f` from the shared frame `b`, and
      mapping it instead changes no other mapping. */
  lemma BreakLasts(m: seq<Page>, mmap: seq<bool>, role: map<nat, Role>, g: seq<Loc>, n: nat, b: nat, f: nat, m3: seq<Page>)
    requires forall t :: t in role ==> IsTable(m, t)
    requires |g| >= 2 && n < |g| && DistinctTables(g)
    requires forall i :: 0 <= i < |g| ==> g[i].table in role && role[g[i].table].Tab? && g[i].entry < ENTRIES
    requires |mmap| == |m| && b < |m| && b !in role && f < |m| && f !in role && mmap[f]
    requires var m1 := UnshareMem(m, g, n);
      |m1| == |m| && IsTable(m1, g[n].table) && m3 == SetEntry(m1, g[n], Entry(m1, g[n]).(base := f))[f := m1[b]]
    ensures TablesLast(m, m3, role, g[n]) && DataKept(m, mmap, role, m3)
    ensures Entry(m3, g[n]) == Entry(m, g[n]).(base := f, AVL := false, RW := true) && m3[f] == m[b]
  {
    UnshareMaps(m, role.Keys, g, n);
    var m1 := UnshareMem(m, g, n);
    assert forall t :: t in role && role[t].Dir? ==> m1[t] == m[t];
    hide UnshareMem;
    SetEntryAt(m1, role.Keys, g[n], Entry(m1, g[n]).(base := f));
    hide SetEntry;
    forall t, j | t in role && 0 <= j < ENTRIES
      ensures EntryLasts(m, m3, Loc(t, j), g[n])
    {
      assert SameMap(m, m1, Loc(t, j));
    }
  }

  /** The frame that was shared still has another mapping, and the new one has this. */
  lemma BreakLoses(m: seq<Page>, mmap: seq<bool>, role: map<nat, Role>, locs: set<Loc>, g: seq<Loc>, n: nat, b: nat, f: nat, m3: seq<Page>)
    requires |g| >= 2 && n < |g| && DistinctTables(g) && (forall i :: 0 <= i < |g| ==> g[i] in locs)
    requires forall q :: q in locs ==> InTables(m, role.Keys, q)
    requires Sharers(m, role.Keys, b, g) && TablesLast(m, m3, role, g[n]) && Maps(m3, g[n], f) && f < |mmap|
    ensures forall h :: Lost(mmap[f := false], m3, role, locs, h) ==> Lost(mmap, m, role, locs, h)
  {
    var other := g[if n == 0 then 1 else 0];
    forall h | Lost(mmap[f := false], m3, role, locs, h)
      ensures Lost(mmap, m, role, locs, h)
    {
      assert !Maps(m3, g[n], h) && !Maps(m3, other, h);
      forall q | q in locs
        ensures !Maps(m, q, h)
      {
        assert !Maps(m3, q, h) && EntryLasts(m, m3, Loc(q.table, q.entry), g[n]);
        assert EntryLasts(m, m3, Loc(other.table, other.entry), g[n]);
      }
    }
  }

  /** The write-fault branch. Nobody reads anything else than before; the page becomes the
      writer's own and writable, at the cost of one frame if it was shared and of none if
      it was not. */
  method WriteFault(k: Kernel, cur: nat, cr2: nat)
    requires Inv(k) && cur < MAX_PROCESS && k.status.Length == k.pde.Length == MAX_PROCESS && k.status[cur] != Unuse
    requires USEBASE <= cr2 < 0x1_0000_0000 && Read(k.mem[..], k.pde[cur], PageC(cr2), PageI(cr2)).Some?
    requires k.mmap.Length == MAXPAGE
    requires PrivatePage(k.mem[..], k.pde[cur], PageC(cr2), PageI(cr2)) || FreeFrames(k.mmap[..]) != {}
    modifies k`x, k`locs, k.psl, k.mmap, k.mem
    ensures Inv(k)
    ensures forall p, i, j :: 0 <= p < MAX_PROCESS && k.status[p] != Unuse && USEPAGE <= i < ENTRIES && 0 <= j < ENTRIES ==>
      Read(k.mem[..], k.pde[p], i, j) == Read(old(k.mem[..]), k.pde[p], i, j)
    ensures forall p, x :: 0 <= p < MAX_PROCESS && k.status[p] != Unuse && USEBASE <= x < 0x1_0000_0000 ==>
      Load(k.mem[..], k.pde[p], x) == Load(old(k.mem[..]), k.pde[p], x)
    ensures IsTable(k.mem[..], k.pde[cur]) && PrivatePage(k.mem[..], k.pde[cur], cr2 / 0x400000, cr2 / 0x1000 % 0x400)
    ensures Entry(k.mem[..], Loc(Entry(k.mem[..], Loc(k.pde[cur], cr2 / 0x400000)).base, cr2 / 0x1000 % 0x400)).RW
    ensures if PrivatePage(old(k.mem[..]), k.pde[cur], PageC(cr2), PageI(cr2)) then k.mem[..] == old(k.mem[..])
      && k.mmap[..] == old(k.mmap[..])
            else |FreeFrames(k.mmap[..])| == |old(FreeFrames(k.mmap[..]))| - 1
    ensures forall f :: Lost(k.mmap[..], k.mem[..], k.role, k.locs, f) ==>
      Lost(old(k.mmap[..]), old(k.mem[..]), old(k.role), old(k.locs), f)
  {
    hide Wf, Sharing, Spaces, FreeFrames, Read, Load, PageC, PageI, UnshareMem, UnshareGroups, SetEntry, SameMaps, Unmapped, Lost;
    UserAddress(cr2);
    k.SharingSizes();
    k.TablesFacts();
    MappedPage(k, cur, PageC(cr2), PageI(cr2));
    ghost var m, mmap, locs, groups := k.mem[..], k.mmap[..], k.locs, k.x.groups;
    ghost var st, pde := k.status[..], k.pde[..];
    var t, j := k.mem[k.pde[cur]].entries[PageC(cr2)].base, PageI(cr2);
    ghost var l := Loc(t, j);
    k.AllInTables();
    if k.mem[t].entries[j].AVL {
      k.GroupFacts(Entry(m, l).base);
      ghost var n := k.DevPage(t, j);
      ghost var g, m1 := groups[Entry(m, l).base], k.mem[..];
      UnshareMaps(m, k.role.Keys, g, n);
      k.TablesFacts();
      var base := k.mem[t].entries[j].base;
      assert SameMap(m, m1, l);
      BaseFacts(m, m1, k.role, base);
      ghost var f := k.FreshCopy(t, j, base);
      FreeFrameIs(mmap, f);
      BreakLasts(m, mmap, k.role, g, n, base, f, k.mem[..]);
      assert k.locs == locs;
      BreakLoses(m, mmap, k.role, locs, g, n, Entry(m, l).base, f, k.mem[..]);
      TablesLastSpaces(m, k.mem[..], k.role, k.locs, st, pde, l);
      AllReadsLast(m, mmap, k.role, locs, groups, st, pde, k.mem[..], l);
    }
    AllLoads(m, k.mem[..], st, pde);
  }

  lemma AllLoads(m: seq<Page>, m3: seq<Page>, st: seq<Status>, pde: seq<nat>)
    requires |st| == |pde| == MAX_PROCESS
    requires forall p, i, j :: 0 <= p < MAX_PROCESS && st[p] != Unuse && USEPAGE <= i < ENTRIES && 0 <= j < ENTRIES ==>
      Read(m3, pde[p], i, j) == Read(m, pde[p], i, j)
    ensures forall p, x :: 0 <= p < MAX_PROCESS && st[p] != Unuse && USEBASE <= x < 0x1_0000_0000 ==>
      Load(m3, pde[p], x) == Load(m, pde[p], x)
  {
    hide Read, Load;
    forall p | 0 <= p < MAX_PROCESS && st[p] != Unuse
      ensures forall x :: USEBASE <= x < 0x1_0000_0000 ==> Load(m3, pde[p], x) == Load(m, pde[p], x)
    {
      SameLoads(m, pde[p], m3, pde[p]);
    }
  }

  lemma AllReadsLast(m: seq<Page>, mmap: seq<bool>, role: map<nat, Role>, locs: set<Loc>, groups: map<nat, seq<Loc>>,
                     st: seq<Status>, pde: seq<nat>, m3: seq<Page>, l: Loc)
    requires Sharing(m, mmap, role.Keys, locs, groups) && Spaces(m, role, locs, st, pde)
    requires TablesLast(m, m3, role, l) && DataKept(m, mmap, role, m3) && l.table in role && l.entry < ENTRIES
    requires Entry(m, l).base < |m| && Entry(m3, l).base < |m| && m3[Entry(m3, l).base] == m[Entry(m, l).base]
    ensures |st| == |pde| == MAX_PROCESS
    ensures forall p, i, j | 0 <= p < MAX_PROCESS && st[p] != Unuse && USEPAGE <= i < ENTRIES && 0 <= j < ENTRIES ::
      Read(m3, pde[p], i, j) == Read(m, pde[p], i, j)
  {
    hide Sharing, Read, TablesLast, DataKept, Roles, LocsExact, FixedPages;
    forall p, i, j | 0 <= p < MAX_PROCESS && st[p] != Unuse && USEPAGE <= i < ENTRIES && 0 <= j < ENTRIES
      ensures Read(m3, pde[p], i, j) == Read(m, pde[p], i, j)
    {
      ReadLasts(m, mmap, role, locs, groups, st, pde, m3, l, p, i, j);
    }
  }

  lemma BaseFacts(m: seq<Page>, m1: seq<Page>, role: map<nat, Role>, b: nat)
    requires SameMaps(m, m1, role.Keys) && b !in role && IsData(m, b)
    ensures IsData(m1, b) && m1[b] == m[b]
  {
  }

  /** The page of `a` is writable as it is, or a frame is left for a copy of it. */
  predicate StoreFits(m: seq<Page>, mmap: seq<bool>, d: nat, a: nat)
    requires |mmap| == MAXPAGE
  {
    || FreeFrames(mmap) != {}
    || (PageC(a) < ENTRIES && PageI(a) < ENTRIES && IsTable(m, d) && var t := Entry(m, Loc(d, PageC(a))).base;
        IsTable(m, t) && Entry(m, Loc(t, PageI(a))).RW)
  }

  /** The page contents after byte `v` was stored at address `a`. */
  function Stored(page: Page, a: nat, v: byte): Page {
    if page.Bytes? && |page.bytes| == PAGESIZE then Bytes(page.bytes[a % PAGESIZE := v]) else page
  }

  /** A user-mode store: the processor raises the fault (code 7: present, write,
      user) when the entry is read-only and repeats the store afterwards. The
      writer, and nobody else, reads the new byte. */
  method UserStore(k: Kernel, cur: nat, a: nat, v: byte)
    requires Inv(k) && cur < MAX_PROCESS && k.status.Length == k.pde.Length == MAX_PROCESS && k.status[cur] != Unuse
    requires USEBASE <= a < 0x1_0000_0000 && Load(k.mem[..], k.pde[cur], a).Some? && Load(k.mem[..], k.pde[cur], a).value.user
    requires k.mmap.Length == MAXPAGE && StoreFits(k.mem[..], k.mmap[..], k.pde[cur], a)
    modifies k`x, k`locs, k.psl, k.mmap, k.mem
    ensures Inv(k)
    ensures forall p, x :: 0 <= p < MAX_PROCESS && k.status[p] != Unuse && USEBASE <= x < 0x1_0000_0000 ==>
      Load(k.mem[..], k.pde[p], x) == if p == cur && x == a then Some(Cell(true, v)) else Load(old(k.mem[..]), k.pde[p], x)
    ensures forall f :: Lost(k.mmap[..], k.mem[..], k.role, k.locs, f) ==>
      Lost(old(k.mmap[..]), old(k.mem[..]), old(k.role), old(k.locs), f)
  {
    hide Wf, Sharing, Spaces, FreeFrames, PrivatePage, Lost, Load;
    UserAddress(a);
    k.SharingSizes();
    ghost var m0 := k.mem[..];
    LoadIsRead(m0, k.pde[cur], a);
    MappedPage(k, cur, PageC(a), PageI(a));
    var t := k.mem[k.pde[cur]].entries[PageC(a)].base;
    if !k.mem[t].entries[PageI(a)].RW {
      WriteFault(k, cur, a);
      MappedPage(k, cur, PageC(a), PageI(a));
    }
    ghost var m := k.mem[..];
    k.TablesFacts();
    IsPrivate(m, k.pde[cur], PageC(a), PageI(a));
    var frame := k.mem[k.mem[k.pde[cur]].entries[PageC(a)].base].entries[PageI(a)].base;
    FillKeeps(m, k.mmap[..], k.role.Keys, k.locs, k.x.groups, frame, Stored(m[frame], a, v));
    k.mem[frame] := Bytes(k.mem[frame].bytes[a % PAGESIZE := v]);
    DataSpaces(m, k.role, k.locs, k.status[..], k.pde[..], frame, Stored(m[frame], a, v));
    DataLoses(m, k.mmap[..], k.role, k.locs, frame, Stored(m[frame], a, v));
    forall p, i, j | 0 <= p < MAX_PROCESS && k.status[p] != Unuse && USEPAGE <= i < ENTRIES && 0 <= j < ENTRIES
      ensures Read(k.mem[..], k.pde[p], i, j) ==
        if p == cur && i == PageC(a) && j == PageI(a) then Some(Mapped(Read(m, k.pde[p], i, j).value.user, Stored(m[frame], a, v)))
        else Read(m, k.pde[p], i, j)
    {
      ReadStored(m, k.mmap[..], k.role, k.locs, k.x.groups, k.status[..], k.pde[..], cur, PageC(a), PageI(a),
                 Stored(m[frame], a, v), p, i, j);
    }
    forall p | 0 <= p < MAX_PROCESS && k.status[p] != Unuse
      ensures forall x :: USEBASE <= x < 0x1_0000_0000 ==>
        Load(k.mem[..], k.pde[p], x) == if p == cur && x == a then Some(Cell(true, v)) else Load(m0, k.pde[p], x)
    {
      LoadStored(m0, k.mem[..], k.pde[p], p == cur, a, v);
    }
  }

  /** What a store to one page does to the bytes that a directory shows. */
  lemma LoadStored(m: seq<Page>, m3: seq<Page>, d: nat, own: bool, a: nat, v: byte)
    requires USEBASE <= a < 0x1_0000_0000
    requires own ==> Read(m, d, PageC(a), PageI(a)).Some? && var was := Read(m, d, PageC(a), PageI(a)).value;
      && was.user && was.page.Bytes? && |was.page.bytes| == PAGESIZE
    requires forall i, j :: USEPAGE <= i < ENTRIES && 0 <= j < ENTRIES ==>
      Read(m3, d, i, j) ==
        if own && i == PageC(a) && j == PageI(a) then Some(Mapped(true, Stored(Read(m, d, i, j).value.page, a, v))) else Read(m, d, i, j)
    ensures forall x :: USEBASE <= x < 0x1_0000_0000 ==>
      Load(m3, d, x) == if own && x == a then Some(Cell(true, v)) else Load(m, d, x)
  {
    hide Read, Load, PageC, PageI;
    forall x | USEBASE <= x < 0x1_0000_0000
      ensures Load(m3, d, x) == if own && x == a then Some(Cell(true, v)) else Load(m, d, x)
    {
      UserAddress(x);
      LoadIsRead(m, d, x);
      LoadIsRead(m3, d, x);
      SameAddress(x, a);
    }
  }

  lemma IsPrivate(m: seq<Page>, d: nat, i: nat, j: nat)
    requires i < ENTRIES && j < ENTRIES && IsTable(m, d) && Entry(m, Loc(d, i)).P
    requires IsTable(m, Entry(m, Loc(d, i)).base)
    requires Entry(m, Loc(Entry(m, Loc(d, i)).base, j)).P && !Entry(m, Loc(Entry(m, Loc(d, i)).base, j)).AVL
    ensures PrivatePage(m, d, i, j)
  {
  }

  lemma DataLoses(m: seq<Page>, mmap: seq<bool>, role: map<nat, Role>, locs: set<Loc>, f: nat, page: Page)
    requires f < |m| && f !in role && forall l :: l in locs ==> l.table in role
    ensures forall h :: Lost(mmap, m[f := page], role, locs, h) ==> Lost(mmap, m, role, locs, h)
  {
    forall h | Lost(mmap, m[f := page], role, locs, h)
      ensures Lost(mmap, m, role, locs, h)
    {
      forall l | l in locs ensures !Maps(m, l, h) { assert !Maps(m[f := page], l, h); }
    }
  }

  /** Changing a data frame changes no role and no entry. */
  lemma DataSpaces(m: seq<Page>, role: map<nat, Role>, locs: set<Loc>, st: seq<Status>, pde: seq<nat>, f: nat, page: Page)
    requires Spaces(m, role, locs, st, pde) && f < |m| && f !in role && (forall t :: t in role ==> IsTable(m, t))
    ensures Spaces(m[f := page], role, locs, st, pde)
  {
    hide Spaces;
    var m3 := m[f := page];
    var l := Loc(0, 0);
    forall t, j | t in role && 0 <= j < ENTRIES
      ensures EntryLasts(m, m3, Loc(t, j), l)
    {
    }
    TablesLastSpaces(m, m3, role, locs, st, pde, l);
  }

  /** The frame of a private page is read through that page alone. */
  lemma ReadStored(m: seq<Page>, mmap: seq<bool>, role: map<nat, Role>, locs: set<Loc>, groups: map<nat, seq<Loc>>,
                   st: seq<Status>, pde: seq<nat>, cur: nat, ci: nat, cj: nat, page: Page, p: nat, i: nat, j: nat)
    requires Sharing(m, mmap, role.Keys, locs, groups) && Spaces(m, role, locs, st, pde)
    requires cur < MAX_PROCESS && st[cur] != Unuse && USEPAGE <= ci < ENTRIES && cj < ENTRIES
    requires PrivatePage(m, pde[cur], ci, cj) && Entry(m, Loc(Entry(m, Loc(pde[cur], ci)).base, cj)).base < |m|
    requires p < MAX_PROCESS && st[p] != Unuse && USEPAGE <= i < ENTRIES && j < ENTRIES
    ensures var m3 := m[Entry(m, Loc(Entry(m, Loc(pde[cur], ci)).base, cj)).base := page];
      Read(m3, pde[p], i, j) ==
        if p == cur && i == ci && j == cj then Some(Mapped(Read(m, pde[p], i, j).value.user, page)) else Read(m, pde[p], i, j)
  {
    hide MembersMap, Roles, LocsExact, FixedPages;
    PageLoc(m, role, locs, st, pde, cur, ci, cj);
    var l := Loc(Entry(m, Loc(pde[cur], ci)).base, cj);
    assert EntryOk(m, mmap, role.Keys, groups, l);
    assert role[pde[p]] == Dir(p);
    if Entry(m, Loc(pde[p], i)).P {
      PageLoc(m, role, locs, st, pde, p, i, j);
      var k := Loc(Entry(m, Loc(pde[p], i)).base, j);
      if Entry(m, k).P && k != l {
        assert EntryOk(m, mmap, role.Keys, groups, k);
        assert Entry(m, k).base == Entry(m, l).base ==> BothMap(m, role.Keys, l, k);
      }
    }
  }
}
