/** How page-table entries, the frame bitmap and the page share list agree, and
    what each elementary change keeps of that agreement. */
module SharedMemory {
  import opened Basics
  import opened Paging

  /** Frame `f` is outside the reserved megabytes and its bitmap bit is clear. */
  ghost predicate Allocated(mmap: seq<bool>, f: nat) {
    |mmap| == MAXPAGE && RESPAGE <= f < MAXPAGE && !mmap[f]
  }

  ghost predicate Tables(mem: seq<Page>, mmap: seq<bool>, meta: set<nat>) {
    forall t :: t in meta ==> Allocated(mmap, t) && IsTable(mem, t)
  }

  ghost predicate InTables(mem: seq<Page>, meta: set<nat>, l: Loc) {
    l.table in meta && l.entry < ENTRIES && IsTable(mem, l.table)
  }

  /** A live entry is present, maps an allocated data frame, and is marked AVL and
      read-only exactly when its frame has a chain in the share list. */
  ghost predicate EntryOk(mem: seq<Page>, mmap: seq<bool>, meta: set<nat>, groups: map<nat, seq<Loc>>, l: Loc) {
    && InTables(mem, meta, l)
    && var e := Entry(mem, l);
      && e.P && Allocated(mmap, e.base) && e.base !in meta && IsData(mem, e.base)
      && e.AVL == (e.base in groups) && e.RW == !e.AVL
      && (e.AVL ==> l in groups[e.base])
  }

  ghost predicate Entries(mem: seq<Page>, mmap: seq<bool>, meta: set<nat>, locs: set<Loc>, groups: map<nat, seq<Loc>>) {
    forall l :: l in locs ==> EntryOk(mem, mmap, meta, groups, l)
  }

  /** The members the share list records for a frame are live entries that map it. */
  ghost predicate MembersMap(mem: seq<Page>, meta: set<nat>, locs: set<Loc>, groups: map<nat, seq<Loc>>) {
    forall f, k :: f in groups && 0 <= k < |groups[f]| ==>
      groups[f][k] in locs && InTables(mem, meta, groups[f][k]) && Entry(mem, groups[f][k]).base == f
  }

  ghost predicate BothMap(mem: seq<Page>, meta: set<nat>, l: Loc, m: Loc) {
    InTables(mem, meta, l) && InTables(mem, meta, m) && Entry(mem, l).base == Entry(mem, m).base
  }

  /** Two live entries map the same frame only as sharers. */
  ghost predicate SoleOwner(mem: seq<Page>, meta: set<nat>, locs: set<Loc>) {
    forall l, m :: l in locs && m in locs && l != m && BothMap(mem, meta, l, m) ==> Entry(mem, l).AVL
  }

  ghost predicate Sharing(mem: seq<Page>, mmap: seq<bool>, meta: set<nat>, locs: set<Loc>, groups: map<nat, seq<Loc>>) {
    && |mem| == |mmap| == MAXPAGE
    && Tables(mem, mmap, meta)
    && Entries(mem, mmap, meta, locs, groups)
    && MembersMap(mem, meta, locs, groups)
    && SoleOwner(mem, meta, locs)
  }

  // ---- sharing

  /** Both entries of a sharing pair become AVL and read-only. */
  function ShareMem(mem: seq<Page>, a: Loc, b: Loc): seq<Page>
    requires IsTable(mem, a.table) && a.entry < ENTRIES && IsTable(mem, b.table) && b.entry < ENTRIES
  {
    var m := SetEntry(mem, a, Entry(mem, a).(AVL := true, RW := false));
    SetEntry(m, b, Entry(m, b).(AVL := true, RW := false))
  }

  function ShareGroups(groups: map<nat, seq<Loc>>, f: nat, a: Loc, b: Loc): map<nat, seq<Loc>> {
    groups[f := if f in groups then groups[f] + [b] else [a, b]]
  }

  /** `m` differs from `mem` in the AVL and R_W bits of table entries only. */
  ghost predicate SameMaps(mem: seq<Page>, m: seq<Page>, meta: set<nat>) {
    && |mem| == |m|
    && (forall f :: 0 <= f < |mem| && f !in meta ==> m[f] == mem[f])
    && (forall t :: t in meta ==> IsTable(mem, t) && IsTable(m, t))
    && (forall t, j :: t in meta && 0 <= j < ENTRIES ==> SameMap(mem, m, Loc(t, j)))
  }

  ghost predicate SameMap(mem: seq<Page>, m: seq<Page>, l: Loc)
    requires IsTable(mem, l.table) && IsTable(m, l.table) && l.entry < ENTRIES
  {
    var e, d := Entry(mem, l), Entry(m, l);
    e.P == d.P && e.base == d.base && e.US == d.US
  }

  lemma ShareMaps(mem: seq<Page>, meta: set<nat>, a: Loc, b: Loc)
    requires forall t :: t in meta ==> IsTable(mem, t)
    requires a.table in meta && b.table in meta && a.entry < ENTRIES && b.entry < ENTRIES
    ensures var m := ShareMem(mem, a, b);
      && SameMaps(mem, m, meta)
      && (forall l: Loc :: l.table in meta && l.entry < ENTRIES ==>
            Entry(m, l) == if l == a || l == b then Entry(mem, l).(AVL := true, RW := false) else Entry(mem, l))
  {
  }

  lemma ShareKeeps(mem: seq<Page>, mmap: seq<bool>, meta: set<nat>, locs: set<Loc>, groups: map<nat, seq<Loc>>, a: Loc, b: Loc)
    requires Sharing(mem, mmap, meta, locs, groups)
    requires a in locs && b !in locs && InTables(mem, meta, a) && InTables(mem, meta, b)
    requires Entry(mem, b).P && Entry(mem, b).base == Entry(mem, a).base
    ensures Sharing(ShareMem(mem, a, b), mmap, meta, locs + {b}, ShareGroups(groups, Entry(mem, a).base, a, b))
  {
    hide Tables, Entries, MembersMap, SoleOwner, ShareMem, ShareGroups;
    ShareEntries(mem, mmap, meta, locs, groups, a, b);
    ShareOwners(mem, mmap, meta, locs, groups, a, b);
  }

  lemma ShareEntries(mem: seq<Page>, mmap: seq<bool>, meta: set<nat>, locs: set<Loc>, groups: map<nat, seq<Loc>>, a: Loc, b: Loc)
    requires Sharing(mem, mmap, meta, locs, groups)
    requires a in locs && b !in locs && InTables(mem, meta, a) && InTables(mem, meta, b)
    requires Entry(mem, b).P && Entry(mem, b).base == Entry(mem, a).base
    ensures var m := ShareMem(mem, a, b);
      |m| == MAXPAGE && Tables(m, mmap, meta) && Entries(m, mmap, meta, locs + {b}, ShareGroups(groups, Entry(mem, a).base, a, b))
  {
    hide MembersMap;
    ShareMaps(mem, meta, a, b);
    hide ShareMem;
    var f := Entry(mem, a).base;
    var m, gs := ShareMem(mem, a, b), ShareGroups(groups, f, a, b);
    assert EntryOk(mem, mmap, meta, groups, a);
    assert gs[f][|gs[f]| - 1] == b;
    forall l | l in locs + {b}
      ensures EntryOk(m, mmap, meta, gs, l)
    {
      if l != b { assert EntryOk(mem, mmap, meta, groups, l); }
      if l != b && Entry(mem, l).base == f {
        if f in groups {
          assert l in groups[f] && groups[f] <= gs[f];
        } else {
          assert BothMap(mem, meta, a, l);
          assert l == a && gs[f][0] == a;
        }
      }
    }
  }

  lemma ShareOwners(mem: seq<Page>, mmap: seq<bool>, meta: set<nat>, locs: set<Loc>, groups: map<nat, seq<Loc>>, a: Loc, b: Loc)
    requires Sharing(mem, mmap, meta, locs, groups)
    requires a in locs && b !in locs && InTables(mem, meta, a) && InTables(mem, meta, b)
    requires Entry(mem, b).P && Entry(mem, b).base == Entry(mem, a).base
    ensures var m := ShareMem(mem, a, b);
      MembersMap(m, meta, locs + {b}, ShareGroups(groups, Entry(mem, a).base, a, b)) && SoleOwner(m, meta, locs + {b})
  {
    ShareMaps(mem, meta, a, b);
    hide ShareMem, Entries, EntryOk;
    var f := Entry(mem, a).base;
    var m := ShareMem(mem, a, b);
    forall l, k | l in locs + {b} && k in locs + {b} && l != k && BothMap(m, meta, l, k)
      ensures Entry(m, l).AVL
    {
      assert BothMap(mem, meta, l, k);
      if Entry(mem, l).base == f && l != a && l != b {
        assert BothMap(mem, meta, l, a);
      }
    }
  }

  // ---- taking one sharer out

  ghost predicate Sharers(mem: seq<Page>, meta: set<nat>, f: nat, g: seq<Loc>) {
    forall i {:trigger g[i]} :: 0 <= i < |g| ==> InTables(mem, meta, g[i]) && Entry(mem, g[i]).base == f
  }

  ghost predicate DistinctTables(g: seq<Loc>) {
    forall i, j :: 0 <= i < j < |g| ==> g[i].table != g[j].table
  }

  /** Member `k` of the sharers `g` becomes private; the last one left with it does too. */
  function UnshareMem(mem: seq<Page>, g: seq<Loc>, k: nat): seq<Page>
    requires k < |g| && forall i :: 0 <= i < |g| ==> IsTable(mem, g[i].table) && g[i].entry < ENTRIES
  {
    var m := if |g| == 2 then SetEntry(mem, g[1 - k], Entry(mem, g[1 - k]).(AVL := false, RW := true)) else mem;
    SetEntry(m, g[k], Entry(m, g[k]).(AVL := false, RW := true))
  }

  function UnshareGroups(groups: map<nat, seq<Loc>>, f: nat, k: nat): map<nat, seq<Loc>>
    requires f in groups && k < |groups[f]|
  {
    if |groups[f]| == 2 then groups - {f} else groups[f := RemoveAt(groups[f], k)]
  }

  /** Entry `l`, member `k` of the sharers of its frame, was taken out. */
  ghost predicate TakenOut(mem: seq<Page>, meta: set<nat>, groups: map<nat, seq<Loc>>, l: Loc, k: nat,
                           m: seq<Page>, gs: map<nat, seq<Loc>>) {
    && InTables(mem, meta, l)
    && var f := Entry(mem, l).base;
      && f in groups && k < |groups[f]| && groups[f][k] == l && |groups[f]| >= 2
      && Sharers(mem, meta, f, groups[f])
      && gs == UnshareGroups(groups, f, k) && m == UnshareMem(mem, groups[f], k)
  }

  lemma UnshareMaps(mem: seq<Page>, meta: set<nat>, g: seq<Loc>, k: nat)
    requires forall t :: t in meta ==> IsTable(mem, t)
    requires k < |g| && forall i :: 0 <= i < |g| ==> g[i].table in meta && g[i].entry < ENTRIES
    ensures var m := UnshareMem(mem, g, k);
      && SameMaps(mem, m, meta)
      && (forall l: Loc :: l.table in meta && l.entry < ENTRIES ==>
            Entry(m, l) == if l == g[k] || (|g| == 2 && l == g[1 - k])
                           then Entry(mem, l).(AVL := false, RW := true) else Entry(mem, l))
  {
  }

  lemma UnshareKeeps(mem: seq<Page>, mmap: seq<bool>, meta: set<nat>, locs: set<Loc>, groups: map<nat, seq<Loc>>, f: nat, k: nat)
    requires Sharing(mem, mmap, meta, locs, groups)
    requires f in groups && k < |groups[f]| && |groups[f]| >= 2 && DistinctTables(groups[f])
    requires Sharers(mem, meta, f, groups[f])
    ensures Sharing(UnshareMem(mem, groups[f], k), mmap, meta, locs - {groups[f][k]}, UnshareGroups(groups, f, k))
  {
    hide Tables, Entries, MembersMap, SoleOwner, UnshareMem, UnshareGroups;
    UnshareEntries(mem, mmap, meta, locs, groups, f, k);
    UnshareMembers(mem, mmap, meta, locs, groups, f, k);
    UnshareSole(mem, mmap, meta, locs, groups, f, k);
  }

  lemma UnshareEntries(mem: seq<Page>, mmap: seq<bool>, meta: set<nat>, locs: set<Loc>, groups: map<nat, seq<Loc>>, f: nat, k: nat)
    requires Tables(mem, mmap, meta) && Entries(mem, mmap, meta, locs, groups)
    requires f in groups && k < |groups[f]| && |groups[f]| >= 2
    requires Sharers(mem, meta, f, groups[f])
    ensures var m := UnshareMem(mem, groups[f], k);
      |m| == |mem| && Tables(m, mmap, meta) && Entries(m, mmap, meta, locs - {groups[f][k]}, UnshareGroups(groups, f, k))
  {
    var g := groups[f];
    UnshareMaps(mem, meta, g, k);
    hide UnshareMem, RemoveAt, EntryOk;
    var m, gs := UnshareMem(mem, g, k), UnshareGroups(groups, f, k);
    forall l | l in locs - {g[k]}
      ensures EntryOk(m, mmap, meta, gs, l)
    {
      UnshareEntry(mem, mmap, meta, groups, f, k, l);
    }
  }

  lemma UnshareEntry(mem: seq<Page>, mmap: seq<bool>, meta: set<nat>, groups: map<nat, seq<Loc>>, f: nat, k: nat, l: Loc)
    requires forall t :: t in meta ==> IsTable(mem, t)
    requires EntryOk(mem, mmap, meta, groups, l) && f in groups && k < |groups[f]| && |groups[f]| >= 2 && l != groups[f][k]
    requires Sharers(mem, meta, f, groups[f])
    ensures EntryOk(UnshareMem(mem, groups[f], k), mmap, meta, UnshareGroups(groups, f, k), l)
  {
    var g := groups[f];
    UnshareMaps(mem, meta, g, k);
    hide UnshareMem, RemoveAt;
    if Entry(mem, l).base == f {
      RemainingMember(g, k, l);
      assert |g| == 2 ==> l == g[1 - k];
    }
  }

  lemma RemainingMember(g: seq<Loc>, k: nat, l: Loc)
    requires k < |g| && l in g && l != g[k]
    ensures l in RemoveAt(g, k)
  {
    var i :| 0 <= i < |g| && g[i] == l;
    assert RemoveAt(g, k)[if i < k then i else i - 1] == l;
  }

  lemma UnshareMembers(mem: seq<Page>, mmap: seq<bool>, meta: set<nat>, locs: set<Loc>, groups: map<nat, seq<Loc>>, f: nat, k: nat)
    requires Tables(mem, mmap, meta) && MembersMap(mem, meta, locs, groups)
    requires f in groups && k < |groups[f]| && |groups[f]| >= 2 && DistinctTables(groups[f])
    requires Sharers(mem, meta, f, groups[f])
    ensures var m := UnshareMem(mem, groups[f], k);
      MembersMap(m, meta, locs - {groups[f][k]}, UnshareGroups(groups, f, k))
  {
    var g := groups[f];
    UnshareMaps(mem, meta, g, k);
    hide UnshareMem, RemoveAt;
    var m, gs := UnshareMem(mem, g, k), UnshareGroups(groups, f, k);
    forall e, i | e in gs && 0 <= i < |gs[e]|
      ensures gs[e][i] in locs - {g[k]} && InTables(m, meta, gs[e][i]) && Entry(m, gs[e][i]).base == e
    {
      if e == f {
        assert gs[e][i] == g[if i < k then i else i + 1];
      } else {
        assert InTables(mem, meta, groups[e][i]);
      }
    }
  }

  lemma UnshareSole(mem: seq<Page>, mmap: seq<bool>, meta: set<nat>, locs: set<Loc>, groups: map<nat, seq<Loc>>, f: nat, k: nat)
    requires Tables(mem, mmap, meta) && Entries(mem, mmap, meta, locs, groups) && SoleOwner(mem, meta, locs)
    requires f in groups && k < |groups[f]| && |groups[f]| >= 2
    requires Sharers(mem, meta, f, groups[f])
    ensures SoleOwner(UnshareMem(mem, groups[f], k), meta, locs - {groups[f][k]})
  {
    var g := groups[f];
    UnshareMaps(mem, meta, g, k);
    hide UnshareMem;
    var m := UnshareMem(mem, g, k);
    forall a, b | a in locs - {g[k]} && b in locs - {g[k]} && a != b && BothMap(m, meta, a, b)
      ensures Entry(m, a).AVL
    {
      assert EntryOk(mem, mmap, meta, groups, a) && EntryOk(mem, mmap, meta, groups, b);
      assert BothMap(mem, meta, a, b);
    }
  }

  // ---- entries and frames outside the sharing machinery

  ghost predicate Unmapped(mem: seq<Page>, meta: set<nat>, locs: set<Loc>, f: nat) {
    forall l :: l in locs && InTables(mem, meta, l) ==> Entry(mem, l).base != f
  }

  /** An available frame is not a table and no live entry maps it. */
  lemma FreeIsFresh(mem: seq<Page>, mmap: seq<bool>, meta: set<nat>, locs: set<Loc>, groups: map<nat, seq<Loc>>, f: nat)
    requires Sharing(mem, mmap, meta, locs, groups) && f < MAXPAGE && mmap[f]
    ensures f !in meta && Unmapped(mem, meta, locs, f)
  {
    forall l | l in locs && InTables(mem, meta, l)
      ensures Entry(mem, l).base != f
    {
      assert EntryOk(mem, mmap, meta, groups, l);
    }
  }

  /** Clearing a bitmap bit keeps what is allocated allocated. */
  lemma AllocKeeps(mem: seq<Page>, mmap: seq<bool>, meta: set<nat>, locs: set<Loc>, groups: map<nat, seq<Loc>>, f: nat)
    requires Sharing(mem, mmap, meta, locs, groups) && f < MAXPAGE
    ensures Sharing(mem, mmap[f := false], meta, locs, groups)
  {
    forall l | l in locs
      ensures EntryOk(mem, mmap[f := false], meta, groups, l)
    {
      assert EntryOk(mem, mmap, meta, groups, l);
    }
  }

  /** Setting the bit of a frame nobody maps and that is no table. */
  lemma FreeKeeps(mem: seq<Page>, mmap: seq<bool>, meta: set<nat>, locs: set<Loc>, groups: map<nat, seq<Loc>>, f: nat)
    requires Sharing(mem, mmap, meta, locs, groups) && f < MAXPAGE
    requires f !in meta && Unmapped(mem, meta, locs, f)
    ensures Sharing(mem, mmap[f := true], meta, locs, groups)
  {
    forall l | l in locs
      ensures EntryOk(mem, mmap[f := true], meta, groups, l)
    {
      assert EntryOk(mem, mmap, meta, groups, l);
    }
  }

  /** New contents for a frame that is no table: data stays data, and a frame
      nobody maps may hold anything. */
  lemma FillKeeps(mem: seq<Page>, mmap: seq<bool>, meta: set<nat>, locs: set<Loc>, groups: map<nat, seq<Loc>>, f: nat, page: Page)
    requires Sharing(mem, mmap, meta, locs, groups) && f < MAXPAGE && f !in meta
    requires (page.Bytes? && |page.bytes| == PAGESIZE) || Unmapped(mem, meta, locs, f)
    ensures Sharing(mem[f := page], mmap, meta, locs, groups)
  {
    var m := mem[f := page];
    forall l | l in locs
      ensures EntryOk(m, mmap, meta, groups, l) && Entry(m, l) == Entry(mem, l)
    {
      assert EntryOk(mem, mmap, meta, groups, l);
    }
  }

  /** A fresh frame that holds a table starts to count as one. */
  lemma NewTableKeeps(mem: seq<Page>, mmap: seq<bool>, meta: set<nat>, locs: set<Loc>, groups: map<nat, seq<Loc>>, t: nat)
    requires Sharing(mem, mmap, meta, locs, groups)
    requires Allocated(mmap, t) && IsTable(mem, t) && Unmapped(mem, meta, locs, t)
    ensures Sharing(mem, mmap, meta + {t}, locs, groups)
  {
    forall l | l in locs
      ensures EntryOk(mem, mmap, meta + {t}, groups, l)
    {
      assert EntryOk(mem, mmap, meta, groups, l);
    }
  }

  /** A table without live entries stops to count as one and is nobody's page. */
  lemma DropTableKeeps(mem: seq<Page>, mmap: seq<bool>, meta: set<nat>, locs: set<Loc>, groups: map<nat, seq<Loc>>, t: nat)
    requires Sharing(mem, mmap, meta, locs, groups) && t in meta
    requires forall l :: l in locs ==> l.table != t
    ensures Sharing(mem, mmap, meta - {t}, locs, groups) && Unmapped(mem, meta - {t}, locs, t)
  {
    forall l | l in locs
      ensures EntryOk(mem, mmap, meta - {t}, groups, l) && Entry(mem, l).base != t
    {
      assert EntryOk(mem, mmap, meta, groups, l);
    }
  }

  /** Entries that are not live may be rewritten freely. */
  lemma RewriteKeeps(mem: seq<Page>, mmap: seq<bool>, meta: set<nat>, locs: set<Loc>, groups: map<nat, seq<Loc>>, l: Loc, e: Pte)
    requires Sharing(mem, mmap, meta, locs, groups)
    requires l !in locs && InTables(mem, meta, l)
    ensures Sharing(SetEntry(mem, l, e), mmap, meta, locs, groups)
  {
    SetEntryAt(mem, meta, l, e);
    hide SetEntry;
    var m := SetEntry(mem, l, e);
    forall k | k in locs
      ensures EntryOk(m, mmap, meta, groups, k) && Entry(m, k) == Entry(mem, k)
    {
      assert EntryOk(mem, mmap, meta, groups, k);
    }
  }

  lemma SetEntryAt(mem: seq<Page>, meta: set<nat>, l: Loc, e: Pte)
    requires forall t :: t in meta ==> IsTable(mem, t)
    requires InTables(mem, meta, l)
    ensures var m := SetEntry(mem, l, e);
      && |m| == |mem| && (forall f :: 0 <= f < |m| && f != l.table ==> m[f] == mem[f])
      && (forall t :: t in meta ==> IsTable(m, t))
      && (forall k: Loc :: k.table in meta && k.entry < ENTRIES ==>
            Entry(m, k) == if k == l then e else Entry(mem, k))
  {
  }

  lemma SharedIsMapped(mem: seq<Page>, meta: set<nat>, locs: set<Loc>, groups: map<nat, seq<Loc>>, f: nat)
    requires MembersMap(mem, meta, locs, groups) && f in groups && |groups[f]| >= 2
    ensures !Unmapped(mem, meta, locs, f)
  {
    assert groups[f][0] in locs && Entry(mem, groups[f][0]).base == f;
  }

  /** A present, private, writable entry for a frame of its own becomes live. */
  lemma AdoptKeeps(mem: seq<Page>, mmap: seq<bool>, meta: set<nat>, locs: set<Loc>, groups: map<nat, seq<Loc>>, l: Loc)
    requires Sharing(mem, mmap, meta, locs, groups) && InTables(mem, meta, l)
    requires var e := Entry(mem, l);
      && e.P && !e.AVL && e.RW && Allocated(mmap, e.base) && e.base !in meta && IsData(mem, e.base)
      && Unmapped(mem, meta, locs, e.base) && (e.base in groups ==> |groups[e.base]| >= 2)
    ensures Sharing(mem, mmap, meta, locs + {l}, groups)
  {
    var f := Entry(mem, l).base;
    if f in groups { SharedIsMapped(mem, meta, locs, groups, f); }
    forall k | k in locs + {l}
      ensures EntryOk(mem, mmap, meta, groups, k)
    {
      if k != l { assert EntryOk(mem, mmap, meta, groups, k); }
    }
  }

  /** A private entry stops to be live; its frame is then nobody's. */
  lemma AbandonKeeps(mem: seq<Page>, mmap: seq<bool>, meta: set<nat>, locs: set<Loc>, groups: map<nat, seq<Loc>>, l: Loc)
    requires Sharing(mem, mmap, meta, locs, groups) && l in locs && InTables(mem, meta, l) && !Entry(mem, l).AVL
    ensures Sharing(mem, mmap, meta, locs - {l}, groups)
    ensures Unmapped(mem, meta, locs - {l}, Entry(mem, l).base)
  {
    assert EntryOk(mem, mmap, meta, groups, l);
    forall k | k in locs - {l}
      ensures EntryOk(mem, mmap, meta, groups, k) && Entry(mem, k).base != Entry(mem, l).base
    {
      assert EntryOk(mem, mmap, meta, groups, k);
      assert Entry(mem, k).base == Entry(mem, l).base ==> BothMap(mem, meta, l, k);
    }
    forall f, i | f in groups && 0 <= i < |groups[f]|
      ensures groups[f][i] in locs - {l}
    {
      assert groups[f][i] in locs;
    }
  }
}
