/** Who maps a frame, and what the page share list says about it, in every state
    of every run. */
module FrameCounts {
  import opened Basics
  import opened Paging
  import opened PageShareList
  import opened SharedMemory
  import opened CowKernel
  import opened AddressSpaces

  /** The present entries of user tables that map frame `f`. */
  ghost function Mappers(k: Kernel, f: nat): set<Loc>
    reads k, k.mem
  {
    set l | l in k.locs && IsTable(k.mem[..], l.table) && l.entry < ENTRIES && Entry(k.mem[..], l).base == f
  }

  lemma {:induction false} SeqSize(g: seq<Loc>, s: set<Loc>)
    requires forall i, j :: 0 <= i < j < |g| ==> g[i] != g[j]
    requires forall l :: l in s <==> l in g
    ensures |s| == |g|
  {
    if g == [] {
      assert s == {};
    } else {
      var last := g[|g| - 1];
      assert forall l :: l in g[..|g| - 1] ==> l in g && l != last;
      assert g == g[..|g| - 1] + [last];
      SeqSize(g[..|g| - 1], s - {last});
    }
  }

  /** A mapped frame is in use, and either one private writable entry maps it, or
      exactly as many shared read-only entries as its header in the share list counts. */
  lemma MappedFrame(k: Kernel, f: nat)
    requires Inv(k) && Mappers(k, f) != {}
    ensures Allocated(k.mmap[..], f)
    ensures
      || (exists l :: Mappers(k, f) == {l} && !Entry(k.mem[..], l).AVL && Entry(k.mem[..], l).RW)
      || (exists h :: 1 <= h < k.psl.Length && k.psl[h].pagec == f && k.psl[h].index == |Mappers(k, f)| && |Mappers(k, f)| >= 2
           && forall l :: l in Mappers(k, f) ==> Entry(k.mem[..], l).AVL && !Entry(k.mem[..], l).RW)
  {
    hide Sharing, Spaces, Chains, Holders, UsedSlots, Apart;
    var l :| l in Mappers(k, f);
    k.LocFacts(l);
    k.SharingSizes();
    if f in k.x.groups {
      k.GroupFacts(f);
      var g, h := k.x.groups[f], k.x.head[f];
      forall q | q in Mappers(k, f)
        ensures q in g && Entry(k.mem[..], q).AVL && !Entry(k.mem[..], q).RW
      {
        k.LocFacts(q);
      }
      SeqSize(g, Mappers(k, f));
      ChainFacts(k.psl[..], k.x, f);
      Kernel.HeaderCounts(k.psl[..], k.x, f);
      assert k.psl[..][h] == k.psl[h];
    } else {
      forall q | q in Mappers(k, f)
        ensures q == l
      {
        k.LocFacts(q);
        SoleMapper(k, l, q);
      }
      assert Mappers(k, f) == {l};
    }
  }

  /** A frame in use that is no table and was not lost is mapped, by one private entry or
      by the sharers its header counts. */
  lemma UsedFrame(k: Kernel, f: nat)
    requires Inv(k) && f < k.mmap.Length && !k.mmap[f] && f !in k.role
    requires !Lost(k.mmap[..], k.mem[..], k.role, k.locs, f)
    ensures Mappers(k, f) != {}
    ensures
      || (exists l :: Mappers(k, f) == {l} && !Entry(k.mem[..], l).AVL && Entry(k.mem[..], l).RW)
      || (exists h :: 1 <= h < k.psl.Length && k.psl[h].pagec == f && k.psl[h].index == |Mappers(k, f)| && |Mappers(k, f)| >= 2
           && forall l :: l in Mappers(k, f) ==> Entry(k.mem[..], l).AVL && !Entry(k.mem[..], l).RW)
  {
    hide Inv;
    var l :| l in k.locs && Maps(k.mem[..], l, f);
    assert l in Mappers(k, f);
    MappedFrame(k, f);
  }

  lemma SoleMapper(k: Kernel, l: Loc, q: Loc)
    requires k.Core() && l in k.locs && q in k.locs && InTables(k.mem[..], k.role.Keys, l) && InTables(k.mem[..], k.role.Keys, q)
    requires Entry(k.mem[..], l).base == Entry(k.mem[..], q).base && !Entry(k.mem[..], l).AVL
    ensures l == q
  {
    assert l != q ==> BothMap(k.mem[..], k.role.Keys, l, q);
  }

  /** The converse: every header of the share list counts the entries that map its frame. */
  lemma HeaderCountsMappers(k: Kernel, h: nat)
    requires Inv(k) && 1 <= h < k.psl.Length && k.psl[h].pagec in k.x.groups
    ensures k.psl[h].index == |Mappers(k, k.psl[h].pagec)| && k.psl[h].index >= 2
  {
    hide Wf, Sharing, Spaces;
    var f := k.psl[h].pagec;
    k.GroupFacts(f);
    k.SharingSizes();
    OnlyHeaderNamesFrame(k.psl[..], k.x, f, h);
    Kernel.HeaderCounts(k.psl[..], k.x, f);
    assert k.psl[..][h] == k.psl[h];
    forall q | q in Mappers(k, f)
      ensures q in k.x.groups[f]
    {
      k.LocFacts(q);
    }
    SeqSize(k.x.groups[f], Mappers(k, f));
  }

  /** Argument page and kernel stack of a live process are mapped by nobody else. */
  lemma FixedPagesAlone(k: Kernel, p: nat, i: nat, j: nat)
    requires Inv(k) && p < k.status.Length == k.pde.Length && k.status[p] != Unuse && k.status[p] != Deaded
    requires (i == USEPAGE && j == 0) || (i == USEENDP && j == USEENDP)
    ensures IsTable(k.mem[..], k.pde[p]) && i < ENTRIES
    ensures var l := Loc(Entry(k.mem[..], Loc(k.pde[p], i)).base, j);
      && IsTable(k.mem[..], l.table) && Mappers(k, Entry(k.mem[..], l).base) == {l}
  {
    hide Wf, Sharing;
    assert FixedPages(k.mem[..], k.status[p], k.pde[p]);
    PageLoc(k.mem[..], k.role, k.locs, k.status[..], k.pde[..], p, i, j);
    var l := Loc(Entry(k.mem[..], Loc(k.pde[p], i)).base, j);
    k.LocFacts(l);
    forall q | q in Mappers(k, Entry(k.mem[..], l).base)
      ensures q == l
    {
      k.LocFacts(q);
      SoleMapper(k, l, q);
    }
  }

  /** `devpage` takes back what `sharepage` did: for the sharers, and for the table
      entries, where the one just added is left private. */
  lemma DevUndoesShare(groups: map<nat, seq<Loc>>, f: nat, a: Loc, b: Loc)
    requires f in groups ==> |groups[f]| >= 2
    ensures var gs := ShareGroups(groups, f, a, b); UnshareGroups(gs, f, |gs[f]| - 1) == groups
  {
    var gs := ShareGroups(groups, f, a, b);
    if f in groups {
      assert RemoveAt(gs[f], |gs[f]| - 1) == groups[f];
      assert gs[f := groups[f]] == groups;
    } else {
      assert gs - {f} == groups;
    }
  }

  lemma DevUndoesShareMem(mem: seq<Page>, meta: set<nat>, groups: map<nat, seq<Loc>>, f: nat, a: Loc, b: Loc, l: Loc)
    requires forall t :: t in meta ==> IsTable(mem, t)
    requires a.table in meta && b.table in meta && a.entry < ENTRIES && b.entry < ENTRIES && a != b
    requires f in groups ==> |groups[f]| >= 2 && Entry(mem, a).AVL && !Entry(mem, a).RW && Sharers(mem, meta, f, groups[f])
    requires f !in groups ==> !Entry(mem, a).AVL && Entry(mem, a).RW
    requires l.table in meta && l.entry < ENTRIES && l != b
    ensures var gs := ShareGroups(groups, f, a, b);
      var m := ShareMem(mem, a, b);
      && (forall i :: 0 <= i < |gs[f]| ==> IsTable(m, gs[f][i].table) && gs[f][i].entry < ENTRIES)
      && IsTable(UnshareMem(m, gs[f], |gs[f]| - 1), l.table)
      && Entry(UnshareMem(m, gs[f], |gs[f]| - 1), l) == Entry(mem, l)
  {
    ShareMaps(mem, meta, a, b);
    var gs, m := ShareGroups(groups, f, a, b), ShareMem(mem, a, b);
    hide ShareMem;
    var g: seq<Loc> := gs[f];
    assert forall i :: 0 <= i < |g| ==> g[i].table in meta && g[i].entry < ENTRIES;
    UnshareMaps(m, meta, gs[f], |gs[f]| - 1);
  }
}
