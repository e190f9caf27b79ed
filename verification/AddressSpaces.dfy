/** Processes on top of the shared memory: who owns which directory and table,
    and what a process reads through its directory. */
module AddressSpaces {
  import opened Basics
  import opened Paging
  import opened PageShareList
  import opened SharedMemory
  import opened CowKernel

  /** The user entries of directory `d` below `n` are writable tables of process `p`. */
  ghost predicate DirOwns(m: seq<Page>, role: map<nat, Role>, p: nat, d: nat, n: nat)
    requires IsTable(m, d) && n <= ENTRIES
  {
    forall i :: USEPAGE <= i < n && Entry(m, Loc(d, i)).P ==>
      var e := Entry(m, Loc(d, i));
      e.US && e.RW && e.base in role && role[e.base] == Tab(p, i)
  }

  ghost predicate Procs(m: seq<Page>, role: map<nat, Role>, st: seq<Status>, pde: seq<nat>) {
    && |st| == |pde| == MAX_PROCESS
    && (forall p :: 0 <= p < MAX_PROCESS && st[p] != Unuse ==>
          pde[p] in role && role[pde[p]] == Dir(p) && IsTable(m, pde[p]) && DirOwns(m, role, p, pde[p], ENTRIES))
  }

  /** Frame `t` has the role the directories give it. */
  ghost predicate RoleOk(m: seq<Page>, r: Role, t: nat, st: seq<Status>, pde: seq<nat>)
    requires |st| == |pde| == MAX_PROCESS
  {
    && r.pid < MAX_PROCESS && st[r.pid] != Unuse
    && match r
       case Dir(p) => pde[p] == t
       case Tab(p, i) =>
         && USEPAGE <= i < ENTRIES && IsTable(m, pde[p])
         && Entry(m, Loc(pde[p], i)).P && Entry(m, Loc(pde[p], i)).base == t
  }

  ghost predicate Roles(m: seq<Page>, role: map<nat, Role>, st: seq<Status>, pde: seq<nat>)
    requires |st| == |pde| == MAX_PROCESS
  {
    forall t :: t in role ==> RoleOk(m, role[t], t, st, pde)
  }

  /** The live entries are exactly the present entries of the tables. */
  ghost predicate LocsExact(m: seq<Page>, role: map<nat, Role>, locs: set<Loc>) {
    forall l: Loc :: l in locs <==>
      l.table in role && role[l.table].Tab? && l.entry < ENTRIES && IsTable(m, l.table) && Entry(m, l).P
  }

  ghost predicate PrivatePage(m: seq<Page>, d: nat, i: nat, j: nat) {
    && i < ENTRIES && j < ENTRIES && IsTable(m, d) && Entry(m, Loc(d, i)).P
    && var t := Entry(m, Loc(d, i)).base;
      IsTable(m, t) && Entry(m, Loc(t, j)).P && !Entry(m, Loc(t, j)).AVL
  }

  /** A live process has its argument page and its kernel stack to itself; a dead
      one has only the kernel stack left. */
  ghost predicate FixedPages(m: seq<Page>, st: Status, d: nat) {
    match st
    case Unuse => true
    case Deaded =>
      && PrivatePage(m, d, USEENDP, USEENDP)
      && (forall i :: USEPAGE <= i < USEENDP ==> !Entry(m, Loc(d, i)).P)
      && (forall j :: 0 <= j < USEENDP ==> !Entry(m, Loc(Entry(m, Loc(d, USEENDP)).base, j)).P)
    case _ =>
      PrivatePage(m, d, USEPAGE, 0) && PrivatePage(m, d, USEENDP, USEENDP)
  }

  lemma UnusedFixed(m: seq<Page>, d: nat)
    ensures FixedPages(m, Unuse, d)
  {
  }

  ghost predicate Spaces(m: seq<Page>, role: map<nat, Role>, locs: set<Loc>, st: seq<Status>, pde: seq<nat>) {
    && Procs(m, role, st, pde)
    && Roles(m, role, st, pde)
    && LocsExact(m, role, locs)
    && (forall p :: 0 <= p < MAX_PROCESS ==> FixedPages(m, st[p], pde[p]))
  }

  ghost predicate Inv(k: Kernel)
    reads k, k.mmap, k.psl, k.mem, k.status, k.pde
  {
    k.Core() && Spaces(k.mem[..], k.role, k.locs, k.status[..], k.pde[..])
  }

  // ---- what a process reads

  datatype Mapped = Mapped(user: bool, page: Page)

  /** What directory `d` maps at directory entry `i`, table entry `j`. */
  function Read(m: seq<Page>, d: nat, i: nat, j: nat): Option<Mapped> {
    if i < ENTRIES && j < ENTRIES && IsTable(m, d) && Entry(m, Loc(d, i)).P then
      var t := Entry(m, Loc(d, i)).base;
      if IsTable(m, t) && Entry(m, Loc(t, j)).P && Entry(m, Loc(t, j)).base < |m| then
        Some(Mapped(Entry(m, Loc(d, i)).US && Entry(m, Loc(t, j)).US, m[Entry(m, Loc(t, j)).base]))
      else None
    else None
  }

  /** A byte a process sees at a linear address, and whether user code may. */
  datatype Cell = Cell(user: bool, v: byte)

  /** The processor's translation: bits 22 to 31 of the address pick the directory entry, bits
      12 to 21 the table entry, and the others the byte of the frame. */
  function Load(m: seq<Page>, d: nat, x: nat): Option<Cell> {
    if !IsTable(m, d) || x >= 0x1_0000_0000 then None
    else
      var dir := m[d].entries[x / 0x400000];
      if !dir.P || !IsTable(m, dir.base) then None
      else
        var e := m[dir.base].entries[x / 0x1000 % 0x400];
        if e.P && e.base < |m| && m[e.base].Bytes? && x % 0x1000 < |m[e.base].bytes|
        then Some(Cell(dir.US && e.US, m[e.base].bytes[x % 0x1000])) else None
  }

  /** The frame behind what is read there. */
  function FrameOf(m: seq<Page>, d: nat, i: nat, j: nat): Option<nat> {
    if i < ENTRIES && j < ENTRIES && IsTable(m, d) && Entry(m, Loc(d, i)).P then
      var t := Entry(m, Loc(d, i)).base;
      if IsTable(m, t) && Entry(m, Loc(t, j)).P && Entry(m, Loc(t, j)).base < |m| then Some(Entry(m, Loc(t, j)).base) else None
    else None
  }

  ghost predicate Maps(m: seq<Page>, l: Loc, b: nat) {
    IsTable(m, l.table) && l.entry < ENTRIES && Entry(m, l).base == b
  }

  /** A frame that is not available although nobody has it. */
  ghost predicate Lost(mmap: seq<bool>, m: seq<Page>, role: map<nat, Role>, locs: set<Loc>, f: nat) {
    f < |mmap| && !mmap[f] && f !in role && forall l :: l in locs ==> !Maps(m, l, f)
  }

  /** Directories are untouched and tables keep what they map. */
  ghost predicate OldKept(m0: seq<Page>, m: seq<Page>, role0: map<nat, Role>) {
    && |m0| == |m|
    && (forall t :: t in role0 ==> IsTable(m0, t) && IsTable(m, t))
    && (forall t :: t in role0 && role0[t].Dir? ==> m[t] == m0[t])
    && (forall t, j :: t in role0 && role0[t].Tab? && 0 <= j < ENTRIES ==> SameMap(m0, m, Loc(t, j)))
  }

  ghost predicate DataKept(m0: seq<Page>, mmap0: seq<bool>, role0: map<nat, Role>, m: seq<Page>)
    requires |m0| == |m| == |mmap0|
  {
    forall f :: 0 <= f < |m| && f !in role0 && !mmap0[f] ==> m[f] == m0[f]
  }

  /** If directories, tables and data in use are kept, so is what everybody reads. */
  lemma ReadKept(m0: seq<Page>, mmap0: seq<bool>, role0: map<nat, Role>, locs0: set<Loc>, groups0: map<nat, seq<Loc>>,
                 st: seq<Status>, pde: seq<nat>, m: seq<Page>, p: nat, i: nat, j: nat)
    requires Sharing(m0, mmap0, role0.Keys, locs0, groups0) && Spaces(m0, role0, locs0, st, pde)
    requires OldKept(m0, m, role0) && DataKept(m0, mmap0, role0, m)
    requires p < MAX_PROCESS && st[p] != Unuse && USEPAGE <= i < ENTRIES && j < ENTRIES
    ensures Read(m, pde[p], i, j) == Read(m0, pde[p], i, j)
  {
    var d := pde[p];
    if Entry(m0, Loc(d, i)).P {
      var t := Entry(m0, Loc(d, i)).base;
      assert role0[t] == Tab(p, i);
      assert SameMap(m0, m, Loc(t, j));
      if Entry(m0, Loc(t, j)).P {
        assert EntryOk(m0, mmap0, role0.Keys, groups0, Loc(t, j));
      }
    }
  }

  // ---- changes that touch what one entry maps

  /** The entry maps what it did, unless it is `cl`, and did not become shared. */
  ghost predicate EntryLasts(m: seq<Page>, m3: seq<Page>, l: Loc, cl: Loc)
    requires IsTable(m, l.table) && IsTable(m3, l.table) && l.entry < ENTRIES
  {
    var e, d := Entry(m, l), Entry(m3, l);
    d.P == e.P && d.US == e.US && (d.AVL ==> e.AVL) && (l != cl ==> d.base == e.base)
  }


  /** Directories are untouched and every table entry lasts. */
  ghost predicate TablesLast(m: seq<Page>, m3: seq<Page>, role: map<nat, Role>, cl: Loc) {
    && |m| == |m3|
    && (forall t :: t in role ==> IsTable(m, t) && IsTable(m3, t))
    && (forall t :: t in role && role[t].Dir? ==> m3[t] == m[t])
    && (forall t, j :: t in role && 0 <= j < ENTRIES ==> EntryLasts(m, m3, Loc(t, j), cl))
  }

  lemma TablesLastSpaces(m: seq<Page>, m3: seq<Page>, role: map<nat, Role>, locs: set<Loc>, st: seq<Status>, pde: seq<nat>, cl: Loc)
    requires Spaces(m, role, locs, st, pde) && TablesLast(m, m3, role, cl)
    ensures Spaces(m3, role, locs, st, pde)
  {
    hide LocsExact, FixedPages, Procs, Roles;
    ProcsLast(m, m3, role, st, pde, cl);
    LocsLast(m, m3, role, locs, cl);
    forall p | 0 <= p < MAX_PROCESS
      ensures FixedPages(m3, st[p], pde[p])
    {
      FixedLast(m, m3, role, st, pde, cl, p);
    }
  }

  lemma ProcsLast(m: seq<Page>, m3: seq<Page>, role: map<nat, Role>, st: seq<Status>, pde: seq<nat>, cl: Loc)
    requires Procs(m, role, st, pde) && Roles(m, role, st, pde) && TablesLast(m, m3, role, cl)
    ensures |st| == |pde| == MAX_PROCESS && Procs(m3, role, st, pde) && Roles(m3, role, st, pde)
  {
    forall p | 0 <= p < MAX_PROCESS && st[p] != Unuse
      ensures DirOwns(m3, role, p, pde[p], ENTRIES)
    {
      assert DirOwns(m, role, p, pde[p], ENTRIES) && m3[pde[p]] == m[pde[p]];
    }
    forall t | t in role
      ensures RoleOk(m3, role[t], t, st, pde)
    {
      assert RoleOk(m, role[t], t, st, pde) && role[pde[role[t].pid]] == Dir(role[t].pid);
    }
  }

  lemma LocsLast(m: seq<Page>, m3: seq<Page>, role: map<nat, Role>, locs: set<Loc>, cl: Loc)
    requires LocsExact(m, role, locs) && TablesLast(m, m3, role, cl)
    ensures LocsExact(m3, role, locs)
  {
    forall l: Loc
      ensures l in locs <==>
        l.table in role && role[l.table].Tab? && l.entry < ENTRIES && IsTable(m3, l.table) && Entry(m3, l).P
    {
      if l.table in role && l.entry < ENTRIES { assert EntryLasts(m, m3, Loc(l.table, l.entry), cl); }
    }
  }

  lemma FixedLast(m: seq<Page>, m3: seq<Page>, role: map<nat, Role>, st: seq<Status>, pde: seq<nat>, cl: Loc, p: nat)
    requires Procs(m, role, st, pde) && TablesLast(m, m3, role, cl) && p < MAX_PROCESS
    requires FixedPages(m, st[p], pde[p])
    ensures FixedPages(m3, st[p], pde[p])
  {
    if st[p] != Unuse {
      var d := pde[p];
      assert DirOwns(m, role, p, d, ENTRIES) && m3[d] == m[d];
      var t := Entry(m, Loc(d, USEENDP)).base;
      assert EntryLasts(m, m3, Loc(t, USEENDP), cl);
      if st[p] == Deaded {
        forall j | 0 <= j < USEENDP
          ensures !Entry(m3, Loc(t, j)).P
        {
          assert EntryLasts(m, m3, Loc(t, j), cl);
        }
      } else {
        assert EntryLasts(m, m3, Loc(Entry(m, Loc(d, USEPAGE)).base, 0), cl);
      }
    }
  }

  /** The place of a mapped page, and that no two pages have the same. */
  lemma PageLoc(m: seq<Page>, role: map<nat, Role>, locs: set<Loc>, st: seq<Status>, pde: seq<nat>, p: nat, i: nat, j: nat)
    requires Spaces(m, role, locs, st, pde) && p < MAX_PROCESS && st[p] != Unuse
    requires USEPAGE <= i < ENTRIES && j < ENTRIES && IsTable(m, pde[p]) && Entry(m, Loc(pde[p], i)).P
    ensures var t := Entry(m, Loc(pde[p], i)).base;
      && t in role && role[t] == Tab(p, i)
      && (IsTable(m, t) ==> (Loc(t, j) in locs <==> Entry(m, Loc(t, j)).P))
  {
    assert DirOwns(m, role, p, pde[p], ENTRIES);
  }

  /** Everybody reads the same if the entry `l` maps a frame of the same contents. */
  lemma ReadLasts(m: seq<Page>, mmap: seq<bool>, role: map<nat, Role>, locs: set<Loc>, groups: map<nat, seq<Loc>>,
                  st: seq<Status>, pde: seq<nat>, m3: seq<Page>, l: Loc, p: nat, i: nat, j: nat)
    requires Sharing(m, mmap, role.Keys, locs, groups) && Spaces(m, role, locs, st, pde)
    requires TablesLast(m, m3, role, l) && DataKept(m, mmap, role, m3)
    requires l.table in role && l.entry < ENTRIES
    requires Entry(m, l).base < |m| && Entry(m3, l).base < |m| && m3[Entry(m3, l).base] == m[Entry(m, l).base]
    requires p < MAX_PROCESS && st[p] != Unuse && USEPAGE <= i < ENTRIES && j < ENTRIES
    ensures Read(m3, pde[p], i, j) == Read(m, pde[p], i, j)
  {
    hide MembersMap, SoleOwner, Roles, LocsExact, FixedPages;
    var d := pde[p];
    assert role[d] == Dir(p) && m3[d] == m[d];
    if Entry(m, Loc(d, i)).P {
      PageLoc(m, role, locs, st, pde, p, i, j);
      var t := Entry(m, Loc(d, i)).base;
      assert EntryLasts(m, m3, Loc(t, j), l);
      if Entry(m, Loc(t, j)).P {
        assert EntryOk(m, mmap, role.Keys, groups, Loc(t, j));
      }
    }
  }

  /** A present user page: where it is and that it maps data in use. */
  lemma MappedPage(k: Kernel, p: nat, i: nat, j: nat)
    requires Inv(k) && p < MAX_PROCESS && k.status.Length == k.pde.Length == MAX_PROCESS && k.status[p] != Unuse
    requires USEPAGE <= i < ENTRIES && j < ENTRIES && Read(k.mem[..], k.pde[p], i, j).Some?
    ensures IsTable(k.mem[..], k.pde[p]) && Entry(k.mem[..], Loc(k.pde[p], i)).P
    ensures var t := Entry(k.mem[..], Loc(k.pde[p], i)).base;
      && t in k.role && k.role[t] == Tab(p, i) && Loc(t, j) in k.locs
      && EntryOk(k.mem[..], k.mmap[..], k.role.Keys, k.x.groups, Loc(t, j))
      && k.pde[p] in k.role && k.role[k.pde[p]] == Dir(p)
  {
    hide Wf, Sharing;
    PageLoc(k.mem[..], k.role, k.locs, k.status[..], k.pde[..], p, i, j);
    k.LocFacts(Loc(Entry(k.mem[..], Loc(k.pde[p], i)).base, j));
  }
}
