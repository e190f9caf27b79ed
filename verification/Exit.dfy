/** exit.c: a dying process gives back its pages, except the kernel stack it runs on. */
module Exit {
  import opened Basics
  import opened Paging
  import opened PageShareList
  import opened SharedMemory
  import opened CowKernel
  import opened AddressSpaces

  /** Entry `l` maps what it did and did not become shared. */
  ghost predicate EntrySame(m: seq<Page>, m3: seq<Page>, l: Loc)
    requires IsTable(m, l.table) && IsTable(m3, l.table) && l.entry < ENTRIES
  {
    var e, d := Entry(m, l), Entry(m3, l);
    d.P == e.P && d.US == e.US && d.base == e.base && (d.AVL ==> e.AVL)
  }

  /** Of the frames with a role only table `t` was changed other than by unsharing,
      and only below entry `n`. Frames without a role are untouched. */
  ghost predicate OthersSame(m: seq<Page>, m3: seq<Page>, role: map<nat, Role>, t: nat, n: nat) {
    && |m| == |m3|
    && (forall f :: 0 <= f < |m| && f !in role ==> m3[f] == m[f])
    && (forall u :: u in role ==> IsTable(m, u) && IsTable(m3, u))
    && (forall u :: u in role && role[u].Dir? ==> m3[u] == m[u])
    && (forall u, j :: u in role && 0 <= j < ENTRIES && (u != t || n <= j) ==> EntrySame(m, m3, Loc(u, j)))
  }

  /** The live entries are among `locs0` and map what they did then. */
  ghost predicate Remaining(m0: seq<Page>, locs0: set<Loc>, m: seq<Page>, locs: set<Loc>) {
    locs <= locs0 && forall l, b: nat :: l in locs ==> (Maps(m, l, b) <==> Maps(m0, l, b))
  }

  /** Of the frames `locs0` mapped exactly those are available that no live entry maps. */
  ghost predicate FreedExactly(m0: seq<Page>, locs0: set<Loc>, m: seq<Page>, locs: set<Loc>, mmap: seq<bool>) {
    forall l, b: nat :: l in locs0 && Maps(m0, l, b) && b < |mmap| ==>
      (mmap[b] <==> forall q :: q in locs ==> !Maps(m, q, b))
  }

  /** A live entry is dropped: its frame becomes available exactly if no other live
      entry maps it. */
  method DropEntry(k: Kernel, t: nat, j: nat, ghost m0: seq<Page>, ghost locs0: set<Loc>)
    requires k.Core() && Loc(t, j) in k.locs && InTables(k.mem[..], k.role.Keys, Loc(t, j)) && k.role[t].Tab?
    requires k.mmap.Length == k.mem.Length == MAXPAGE
    requires Remaining(m0, locs0, k.mem[..], k.locs) && FreedExactly(m0, locs0, k.mem[..], k.locs, k.mmap[..])
    requires forall q :: q in k.locs ==> InTables(k.mem[..], k.role.Keys, q)
    modifies k`x, k`locs, k.psl, k.mmap, k.mem
    ensures k.Core() && k.locs == old(k.locs) - {Loc(t, j)}
    ensures OthersSame(old(k.mem[..]), k.mem[..], k.role, t, j + 1)
    ensures forall i :: 0 <= i < j ==> EntrySame(old(k.mem[..]), k.mem[..], Loc(t, i))
    ensures !Entry(k.mem[..], Loc(t, j)).P && forall f :: 0 <= f < MAXPAGE && old(k.mmap[f]) ==> k.mmap[f]
    ensures Remaining(m0, locs0, k.mem[..], k.locs) && FreedExactly(m0, locs0, k.mem[..], k.locs, k.mmap[..])
  {
    hide Wf, Sharing, UnshareMem, UnshareGroups, SetEntry, Unmapped, Remaining, FreedExactly;
    k.TablesFacts();
    k.SharingSizes();
    ghost var l, m, mmap, locs := Loc(t, j), k.mem[..], k.mmap[..], k.locs;
    var base := ReleaseFrame(k, t, j);
    ghost var m1 := k.mem[..];
    k.TablesFacts();
    ghost var e := Entry(m1, l).(P := false);
    RewriteKeeps(m1, k.mmap[..], k.role.Keys, k.locs, k.x.groups, l, e);
    SetEntryAt(m1, k.role.Keys, l, e);
    k.SetEntryIs(m1, l, e);
    k.mem[t] := Table(k.mem[t].entries[j := k.mem[t].entries[j].(P := false)]);
    DropOthers(m, m1, k.mem[..], k.role, l, e);
    DropFreed(m0, locs0, m, locs, mmap, l, base, k.mem[..], k.mmap[..]);
  }

  lemma DropOthers(m: seq<Page>, m1: seq<Page>, m3: seq<Page>, role: map<nat, Role>, l: Loc, e: Pte)
    requires l.table in role && role[l.table].Tab? && l.entry < ENTRIES && OthersSame(m, m1, role, l.table, 0)
    requires m3 == m1[l.table := Table(m1[l.table].entries[l.entry := e])]
    ensures OthersSame(m, m3, role, l.table, l.entry + 1)
    ensures forall i :: 0 <= i < l.entry ==> EntrySame(m, m3, Loc(l.table, i))
  {
    forall u, j | u in role && 0 <= j < ENTRIES && Loc(u, j) != l
      ensures EntrySame(m, m3, Loc(u, j))
    {
      assert EntrySame(m, m1, Loc(u, j));
    }
  }

  /** The entry takes leave of the other sharers; the last one to map the frame returns it. */
  method ReleaseFrame(k: Kernel, t: nat, j: nat) returns (base: nat)
    requires k.Core() && Loc(t, j) in k.locs && InTables(k.mem[..], k.role.Keys, Loc(t, j)) && k.role[t].Tab?
    requires k.mmap.Length == k.mem.Length == MAXPAGE && t < MAXPAGE
    modifies k`x, k`locs, k.psl, k.mmap, k.mem
    ensures k.Core() && k.locs == old(k.locs) - {Loc(t, j)}
    ensures OthersSame(old(k.mem[..]), k.mem[..], k.role, t, 0)
    ensures base < MAXPAGE && Maps(old(k.mem[..]), Loc(t, j), base)
    ensures forall f :: 0 <= f < MAXPAGE && f != base ==> k.mmap[f] == old(k.mmap[f])
    ensures k.mmap[base] <==> forall q :: q in old(k.locs) && q != Loc(t, j) ==> !Maps(old(k.mem[..]), q, base)
    ensures !old(k.mmap[base])
  {
    hide Wf, Sharing, UnshareMem, UnshareGroups, SetEntry, Unmapped;
    k.TablesFacts();
    k.SharingSizes();
    ghost var l, m, mmap, locs := Loc(t, j), k.mem[..], k.mmap[..], k.locs;
    k.LocFacts(l);
    base := k.mem[t].entries[j].base;
    if k.mem[t].entries[j].AVL {
      k.GroupFacts(base);
      ghost var g := k.x.groups[base];
      ghost var n := k.DevPage(t, j);
      UnshareMaps(m, k.role.Keys, g, n);
      assert g[1 - n % 2] in locs && Maps(m, g[1 - n % 2], base) && g[1 - n % 2] != l;
    } else {
      AbandonKeeps(m, mmap, k.role.Keys, locs, k.x.groups, l);
      k.locs := k.locs - {l};
      FreeKeeps(m, mmap, k.role.Keys, k.locs, k.x.groups, base);
      var r := k.FreePage(base);
      SoleMapping(m, mmap, k.role.Keys, locs, k.x.groups, l);
    }
  }

  lemma SoleMapping(m: seq<Page>, mmap: seq<bool>, meta: set<nat>, locs: set<Loc>, groups: map<nat, seq<Loc>>, l: Loc)
    requires Sharing(m, mmap, meta, locs, groups) && l in locs && InTables(m, meta, l) && !Entry(m, l).AVL
    ensures forall q :: q in locs && q != l ==> !Maps(m, q, Entry(m, l).base)
  {
    forall q | q in locs && q != l
      ensures !Maps(m, q, Entry(m, l).base)
    {
      assert EntryOk(m, mmap, meta, groups, q);
      if Maps(m, q, Entry(m, l).base) { assert BothMap(m, meta, l, q); }
    }
  }

  lemma DropFreed(m0: seq<Page>, locs0: set<Loc>, m: seq<Page>, locs: set<Loc>, mmap: seq<bool>, l: Loc, base: nat,
                  m3: seq<Page>, mmap3: seq<bool>)
    requires Remaining(m0, locs0, m, locs) && FreedExactly(m0, locs0, m, locs, mmap)
    requires l in locs && Maps(m, l, base) && |mmap| == |mmap3| && base < |mmap|
    requires forall q, b: nat :: q in locs && q != l ==> (Maps(m3, q, b) <==> Maps(m, q, b))
    requires forall b :: 0 <= b < |mmap| && b != base ==> mmap3[b] == mmap[b]
    requires mmap3[base] <==> forall q :: q in locs && q != l ==> !Maps(m, q, base)
    ensures Remaining(m0, locs0, m3, locs - {l}) && FreedExactly(m0, locs0, m3, locs - {l}, mmap3)
  {
    forall q, b: nat | q in locs0 && Maps(m0, q, b) && b < |mmap3|
      ensures mmap3[b] <==> forall r :: r in locs - {l} ==> !Maps(m3, r, b)
    {
      if b != base {
        assert !Maps(m, l, b);
      }
    }
  }

  ghost predicate Released(m: seq<Page>, t: nat, n: nat)
    requires IsTable(m, t) && n <= ENTRIES
  {
    forall j :: 0 <= j < n ==> !Entry(m, Loc(t, j)).P
  }

  lemma OthersSameStep(m0: seq<Page>, m: seq<Page>, m3: seq<Page>, role: map<nat, Role>, t: nat, j: nat)
    requires t in role && j < ENTRIES && OthersSame(m0, m, role, t, j) && OthersSame(m, m3, role, t, j + 1)
    ensures OthersSame(m0, m3, role, t, j + 1)
  {
    forall u, i | u in role && 0 <= i < ENTRIES && (u != t || j + 1 <= i)
      ensures EntrySame(m0, m3, Loc(u, i))
    {
      assert EntrySame(m0, m, Loc(u, i)) && EntrySame(m, m3, Loc(u, i));
    }
  }

  lemma LocsAfterDrop(m: seq<Page>, m3: seq<Page>, role: map<nat, Role>, locs: set<Loc>, t: nat, j: nat)
    requires LocsExact(m, role, locs) && t in role && j < ENTRIES && OthersSame(m, m3, role, t, j + 1)
    requires forall i :: 0 <= i < j ==> EntrySame(m, m3, Loc(t, i))
    requires !Entry(m3, Loc(t, j)).P
    ensures LocsExact(m3, role, locs - {Loc(t, j)})
  {
    forall l: Loc
      ensures l in locs - {Loc(t, j)} <==>
        l.table in role && role[l.table].Tab? && l.entry < ENTRIES && IsTable(m3, l.table) && Entry(m3, l).P
    {
      if l.table in role && l.entry < ENTRIES && l != Loc(t, j) { assert EntrySame(m, m3, Loc(l.table, l.entry)); }
    }
  }

  /** exit.c lines 27-36 and 44-53: the entries of one table below `n` are dropped. */
  method ReleaseEntries(k: Kernel, t: nat, n: nat, ghost m0: seq<Page>, ghost locs0: set<Loc>)
    requires k.Core() && LocsExact(k.mem[..], k.role, k.locs) && t in k.role && k.role[t].Tab? && n <= ENTRIES
    requires k.mmap.Length == k.mem.Length == MAXPAGE && t < MAXPAGE
    requires Remaining(m0, locs0, k.mem[..], k.locs) && FreedExactly(m0, locs0, k.mem[..], k.locs, k.mmap[..])
    modifies k`x, k`locs, k.psl, k.mmap, k.mem
    ensures k.Core() && LocsExact(k.mem[..], k.role, k.locs)
    ensures OthersSame(old(k.mem[..]), k.mem[..], k.role, t, n) && Released(k.mem[..], t, n)
    ensures forall f :: 0 <= f < MAXPAGE && old(k.mmap[f]) ==> k.mmap[f]
    ensures Remaining(m0, locs0, k.mem[..], k.locs) && FreedExactly(m0, locs0, k.mem[..], k.locs, k.mmap[..])
  {
    hide Wf, Sharing, Remaining, FreedExactly;
    k.TablesFacts();
    ghost var m1 := k.mem[..];
    var j := 0;
    assert forall u, i :: u in k.role && 0 <= i < ENTRIES ==> EntrySame(m1, m1, Loc(u, i));
    while j < n
      invariant 0 <= j <= n
      invariant k.Core() && LocsExact(k.mem[..], k.role, k.locs)
      invariant OthersSame(m1, k.mem[..], k.role, t, j) && Released(k.mem[..], t, j)
      invariant forall f :: 0 <= f < MAXPAGE && old(k.mmap[f]) ==> k.mmap[f]
      invariant Remaining(m0, locs0, k.mem[..], k.locs) && FreedExactly(m0, locs0, k.mem[..], k.locs, k.mmap[..])
    {
      ghost var m2 := k.mem[..];
      if k.mem[t].entries[j].P {
        DropEntry(k, t, j, m0, locs0);
        OthersSameStep(m1, m2, k.mem[..], k.role, t, j);
        LocsAfterDrop(m2, k.mem[..], k.role, k.locs + {Loc(t, j)}, t, j);
        forall i | 0 <= i < j ensures !Entry(k.mem[..], Loc(t, i)).P {
          assert EntrySame(m2, k.mem[..], Loc(t, i));
        }
      } else {
        OthersSameWeaken(m1, m2, k.role, t, j);
      }
      j := j + 1;
    }
  }

  lemma OthersSameWeaken(m0: seq<Page>, m: seq<Page>, role: map<nat, Role>, t: nat, j: nat)
    requires OthersSame(m0, m, role, t, j)
    ensures OthersSame(m0, m, role, t, j + 1)
  {
  }

  // ---- all tables of the process

  /** What holds before directory entry `i` of the dying process `p`. */
  ghost predicate CleanLoop(m0: seq<Page>, role0: map<nat, Role>, m: seq<Page>, role: map<nat, Role>, p: nat, d: nat, i: nat) {
    && |m0| == |m| && IsTable(m0, d) && IsTable(m, d) && USEPAGE <= i <= USEENDP
    && (forall t :: t in role ==> t in role0 && role[t] == role0[t] && IsTable(m0, t) && IsTable(m, t))
    && (forall t :: t in role && role[t].Tab? && role[t].pid == p ==> i <= role[t].dir)
    && (forall t :: t in role0 && t !in role ==> role0[t].Tab? && role0[t].pid == p && role0[t].dir < i)
    && (forall t :: t in role && role[t].Dir? && t != d ==> m[t] == m0[t])
    && (forall q :: 0 <= q < ENTRIES && (q < USEPAGE || i <= q) ==> Entry(m, Loc(d, q)) == Entry(m0, Loc(d, q)))
    && (forall q :: USEPAGE <= q < i ==> !Entry(m, Loc(d, q)).P)
    && (forall t, j :: t in role && role[t].Tab? && 0 <= j < ENTRIES ==> EntrySame(m0, m, Loc(t, j)))
    && (forall f :: 0 <= f < |m| && f !in role0 ==> m[f] == m0[f])
  }

  lemma CleanStep(m0: seq<Page>, role0: map<nat, Role>, m: seq<Page>, role: map<nat, Role>, p: nat, d: nat, i: nat,
                  t: nat, m1: seq<Page>, m2: seq<Page>)
    requires CleanLoop(m0, role0, m, role, p, d, i) && i < USEENDP
    requires t in role && role[t] == Tab(p, i) && d in role && role[d] == Dir(p)
    requires OthersSame(m, m1, role, t, ENTRIES)
    requires forall u :: u in role && role[u].Tab? && u != t && role[u].pid == p ==> role[u].dir != i
    requires IsTable(m1, d) && m2 == SetEntry(m1, Loc(d, i), Entry(m1, Loc(d, i)).(P := false))
    ensures CleanLoop(m0, role0, m2, role - {t}, p, d, i + 1)
  {
    SetEntryAt(m1, role.Keys, Loc(d, i), Entry(m1, Loc(d, i)).(P := false));
    hide SetEntry;
    var role2 := role - {t};
    forall u, j | u in role2 && role2[u].Tab? && 0 <= j < ENTRIES
      ensures EntrySame(m0, m2, Loc(u, j))
    {
      assert EntrySame(m0, m, Loc(u, j)) && EntrySame(m, m1, Loc(u, j));
    }
  }

  lemma LocsWithout(m: seq<Page>, role: map<nat, Role>, locs: set<Loc>, t: nat)
    requires LocsExact(m, role, locs) && t in role && IsTable(m, t) && Released(m, t, ENTRIES)
    ensures LocsExact(m, role - {t}, locs) && forall l :: l in locs ==> l.table != t
  {
  }

  lemma LocsAfterRewrite(m: seq<Page>, m3: seq<Page>, role: map<nat, Role>, locs: set<Loc>, l: Loc, e: Pte)
    requires LocsExact(m, role, locs) && InTables(m, role.Keys, l) && role[l.table].Dir? && m3 == SetEntry(m, l, e)
    ensures LocsExact(m3, role, locs)
  {
  }

  lemma FreedAfterRewrite(m0: seq<Page>, locs0: set<Loc>, m: seq<Page>, m3: seq<Page>, role: map<nat, Role>, locs: set<Loc>,
                          mmap: seq<bool>, l: Loc, e: Pte)
    requires LocsExact(m, role, locs) && InTables(m, role.Keys, l) && role[l.table].Dir? && m3 == SetEntry(m, l, e)
    requires Remaining(m0, locs0, m, locs) && FreedExactly(m0, locs0, m, locs, mmap)
    ensures Remaining(m0, locs0, m3, locs) && FreedExactly(m0, locs0, m3, locs, mmap)
  {
    forall q, b: nat | q in locs
      ensures Maps(m3, q, b) <==> Maps(m, q, b)
    {
    }
  }

  /** No live entry mapped a table. */
  ghost predicate DataOnly(m0: seq<Page>, locs0: set<Loc>, role0: map<nat, Role>) {
    forall l, b: nat :: l in locs0 && Maps(m0, l, b) ==> b !in role0
  }

  /** exit.c lines 24-41: one directory entry. */
  method ReleaseTable(k: Kernel, p: nat, d: nat, i: nat, ghost m0: seq<Page>, ghost role0: map<nat, Role>, ghost locs0: set<Loc>)
    requires k.Core() && LocsExact(k.mem[..], k.role, k.locs) && k.mmap.Length == k.mem.Length == MAXPAGE && d < MAXPAGE
    requires CleanLoop(m0, role0, k.mem[..], k.role, p, d, i) && i < USEENDP
    requires d in k.role && k.role[d] == Dir(p) && Entry(k.mem[..], Loc(d, i)).P
    requires var t := Entry(k.mem[..], Loc(d, i)).base; t in k.role && k.role[t] == Tab(p, i)
    requires forall u :: u in k.role && k.role[u] == Tab(p, i) ==> u == Entry(k.mem[..], Loc(d, i)).base
    requires Remaining(m0, locs0, k.mem[..], k.locs) && FreedExactly(m0, locs0, k.mem[..], k.locs, k.mmap[..])
    requires DataOnly(m0, locs0, role0)
    modifies k`x, k`locs, k`role, k.psl, k.mmap, k.mem
    ensures k.Core() && LocsExact(k.mem[..], k.role, k.locs)
    ensures CleanLoop(m0, role0, k.mem[..], k.role, p, d, i + 1)
    ensures d in k.role && k.role[d] == Dir(p)
    ensures forall f :: 0 <= f < MAXPAGE && old(k.mmap[f]) ==> k.mmap[f]
    ensures forall u :: u in old(k.role) && u !in k.role ==> u < MAXPAGE && k.mmap[u]
    ensures Remaining(m0, locs0, k.mem[..], k.locs) && FreedExactly(m0, locs0, k.mem[..], k.locs, k.mmap[..])
  {
    hide Wf, Sharing, CleanLoop, LocsExact, Released, Remaining, FreedExactly, SetEntry, Unmapped, DataOnly;
    ghost var m, roleBefore := k.mem[..], k.role;
    k.TablesFacts();
    var t := k.mem[d].entries[i].base;
    k.TableFacts(t);
    ReleaseEntries(k, t, ENTRIES, m0, locs0);
    ghost var m1 := k.mem[..];
    LocsWithout(m1, k.role, k.locs, t);
    DropTableKeeps(m1, k.mmap[..], k.role.Keys, k.locs, k.x.groups, t);
    k.role := k.role - {t};
    assert k.role.Keys == roleBefore.Keys - {t};
    FreeKeeps(m1, k.mmap[..], k.role.Keys, k.locs, k.x.groups, t);
    FreedOther(m0, locs0, role0, m, m1, roleBefore, p, d, i, k.locs, k.mmap[..], t);
    var r := k.FreePage(t);
    ghost var e := Entry(m1, Loc(d, i)).(P := false);
    RewriteKeeps(m1, k.mmap[..], k.role.Keys, k.locs, k.x.groups, Loc(d, i), e);
    k.SetEntryIs(m1, Loc(d, i), e);
    k.mem[d] := Table(k.mem[d].entries[i := k.mem[d].entries[i].(P := false)]);
    LocsAfterRewrite(m1, k.mem[..], k.role, k.locs, Loc(d, i), e);
    FreedAfterRewrite(m0, locs0, m1, k.mem[..], k.role, k.locs, k.mmap[..], Loc(d, i), e);
    CleanStep(m0, role0, m, roleBefore, p, d, i, t, m1, k.mem[..]);
  }

  lemma FreedOther(m0: seq<Page>, locs0: set<Loc>, role0: map<nat, Role>, m: seq<Page>, m1: seq<Page>, role: map<nat, Role>,
                   p: nat, d: nat, i: nat, locs: set<Loc>, mmap: seq<bool>, t: nat)
    requires CleanLoop(m0, role0, m, role, p, d, i) && t in role && t < |mmap|
    requires FreedExactly(m0, locs0, m1, locs, mmap) && DataOnly(m0, locs0, role0)
    ensures FreedExactly(m0, locs0, m1, locs, mmap[t := true])
  {
  }

  // ---- the whole of `cleanup`

  /** What holds when only the entries of the last table below the stack are to go. */
  ghost predicate CleanEnd(m0: seq<Page>, role0: map<nat, Role>, m: seq<Page>, role: map<nat, Role>, p: nat, d: nat, m3: seq<Page>) {
    && CleanLoop(m0, role0, m, role, p, d, USEENDP)
    && d in role && role[d] == Dir(p) && Entry(m, Loc(d, USEENDP)).P
    && var t := Entry(m, Loc(d, USEENDP)).base;
      && t in role && role[t] == Tab(p, USEENDP)
      && OthersSame(m, m3, role, t, USEENDP) && IsTable(m3, t) && Released(m3, t, USEENDP)
  }

  lemma EndEntry(m0: seq<Page>, role0: map<nat, Role>, m: seq<Page>, role: map<nat, Role>, p: nat, d: nat, m3: seq<Page>, t: nat, j: nat)
    requires CleanEnd(m0, role0, m, role, p, d, m3)
    requires t in role && role[t].Tab? && j < ENTRIES && (t != Entry(m, Loc(d, USEENDP)).base || j == USEENDP)
    ensures IsTable(m0, t) && IsTable(m3, t) && EntrySame(m0, m3, Loc(t, j))
  {
    assert EntrySame(m0, m, Loc(t, j)) && EntrySame(m, m3, Loc(t, j));
  }

  lemma EndProcs(m0: seq<Page>, role0: map<nat, Role>, locs0: set<Loc>, st: seq<Status>, pde: seq<nat>,
                 m: seq<Page>, role: map<nat, Role>, p: nat, m3: seq<Page>)
    requires Spaces(m0, role0, locs0, st, pde) && p < MAX_PROCESS && st[p] != Unuse
    requires CleanEnd(m0, role0, m, role, p, pde[p], m3)
    ensures Procs(m3, role, st[p := Deaded], pde) && Roles(m3, role, st[p := Deaded], pde)
  {
    hide LocsExact, FixedPages, EntrySame, Released;
    var st', d := st[p := Deaded], pde[p];
    forall q | 0 <= q < MAX_PROCESS && st'[q] != Unuse
      ensures pde[q] in role && role[pde[q]] == Dir(q) && IsTable(m3, pde[q]) && DirOwns(m3, role, q, pde[q], ENTRIES)
    {
      assert role0[pde[q]] == Dir(q) && DirOwns(m0, role0, q, pde[q], ENTRIES);
    }
    forall t | t in role
      ensures RoleOk(m3, role[t], t, st', pde)
    {
      assert RoleOk(m0, role0[t], t, st, pde);
      assert role0[pde[role0[t].pid]] == Dir(role0[t].pid);
    }
  }

  /** A page of a table that stays, at an entry that stays, stays private. */
  lemma EndPrivate(m0: seq<Page>, role0: map<nat, Role>, locs0: set<Loc>, st: seq<Status>, pde: seq<nat>,
                   m: seq<Page>, role: map<nat, Role>, p: nat, m3: seq<Page>, q: nat, i: nat, j: nat)
    requires Spaces(m0, role0, locs0, st, pde) && p < MAX_PROCESS && st[p] != Unuse
    requires CleanEnd(m0, role0, m, role, p, pde[p], m3) && q < MAX_PROCESS && st[q] != Unuse
    requires USEPAGE <= i && PrivatePage(m0, pde[q], i, j)
    requires q != p || (i == USEENDP && j == USEENDP)
    ensures PrivatePage(m3, pde[q], i, j)
  {
    hide Roles, LocsExact, FixedPages, EntrySame;
    KeptDir(m0, role0, locs0, st, pde, m, role, p, m3, q);
    PageLoc(m0, role0, locs0, st, pde, q, i, j);
    hide Spaces;
    var t := Entry(m0, Loc(pde[q], i)).base;
    EndEntry(m0, role0, m, role, p, pde[p], m3, t, j);
    EntrySameMeans(m0, m3, Loc(t, j));
  }

  lemma EntrySameMeans(m: seq<Page>, m3: seq<Page>, l: Loc)
    requires IsTable(m, l.table) && IsTable(m3, l.table) && l.entry < ENTRIES && EntrySame(m, m3, l)
    ensures Entry(m3, l).P == Entry(m, l).P && (Entry(m3, l).AVL ==> Entry(m, l).AVL)
  {
  }

  lemma KeptDir(m0: seq<Page>, role0: map<nat, Role>, locs0: set<Loc>, st: seq<Status>, pde: seq<nat>,
                m: seq<Page>, role: map<nat, Role>, p: nat, m3: seq<Page>, q: nat)
    requires Spaces(m0, role0, locs0, st, pde) && p < MAX_PROCESS && st[p] != Unuse
    requires CleanEnd(m0, role0, m, role, p, pde[p], m3) && q < MAX_PROCESS && st[q] != Unuse
    ensures IsTable(m0, pde[q]) && IsTable(m3, pde[q])
    ensures q != p ==> m3[pde[q]] == m0[pde[q]]
    ensures Entry(m3, Loc(pde[q], USEENDP)) == Entry(m0, Loc(pde[q], USEENDP))
  {
    hide Roles, LocsExact, FixedPages, EntrySame;
    assert role0[pde[q]] == Dir(q);
  }

  lemma EndFixed(m0: seq<Page>, role0: map<nat, Role>, locs0: set<Loc>, st: seq<Status>, pde: seq<nat>,
                 m: seq<Page>, role: map<nat, Role>, p: nat, m3: seq<Page>, q: nat)
    requires Spaces(m0, role0, locs0, st, pde) && p < MAX_PROCESS && st[p] != Unuse && st[p] != Deaded
    requires CleanEnd(m0, role0, m, role, p, pde[p], m3) && q < MAX_PROCESS
    ensures FixedPages(m3, st[p := Deaded][q], pde[q])
  {
    hide Roles, LocsExact, EntrySame;
    assert FixedPages(m0, st[q], pde[q]);
    if st[q] != Unuse {
      EndPrivate(m0, role0, locs0, st, pde, m, role, p, m3, q, USEENDP, USEENDP);
      KeptDir(m0, role0, locs0, st, pde, m, role, p, m3, q);
      if st[q] == Deaded {
        PageLoc(m0, role0, locs0, st, pde, q, USEENDP, USEENDP);
        forall j | 0 <= j < USEENDP
          ensures !Entry(m3, Loc(Entry(m0, Loc(pde[q], USEENDP)).base, j)).P
        {
          EndEntry(m0, role0, m, role, p, pde[p], m3, Entry(m0, Loc(pde[q], USEENDP)).base, j);
          EntrySameMeans(m0, m3, Loc(Entry(m0, Loc(pde[q], USEENDP)).base, j));
        }
      } else if q != p {
        EndPrivate(m0, role0, locs0, st, pde, m, role, p, m3, q, USEPAGE, 0);
      }
    }
  }

  /** What the others read is kept. */
  lemma EndRead(m0: seq<Page>, mmap0: seq<bool>, role0: map<nat, Role>, locs0: set<Loc>, groups0: map<nat, seq<Loc>>,
                st: seq<Status>, pde: seq<nat>, m: seq<Page>, role: map<nat, Role>, p: nat, m3: seq<Page>, q: nat, i: nat, j: nat)
    requires Sharing(m0, mmap0, role0.Keys, locs0, groups0) && Spaces(m0, role0, locs0, st, pde)
    requires p < MAX_PROCESS && st[p] != Unuse && CleanEnd(m0, role0, m, role, p, pde[p], m3)
    requires q < MAX_PROCESS && st[q] != Unuse && q != p && USEPAGE <= i < ENTRIES && j < ENTRIES
    ensures Read(m3, pde[q], i, j) == Read(m0, pde[q], i, j)
  {
    hide MembersMap, SoleOwner, Roles, LocsExact, FixedPages;
    var d := pde[q];
    assert role0[d] == Dir(q) && m3[d] == m0[d];
    if Entry(m0, Loc(d, i)).P {
      PageLoc(m0, role0, locs0, st, pde, q, i, j);
      var t := Entry(m0, Loc(d, i)).base;
      assert t in role;
      EndEntry(m0, role0, m, role, p, pde[p], m3, t, j);
      if Entry(m0, Loc(t, j)).P {
        assert EntryOk(m0, mmap0, role0.Keys, groups0, Loc(t, j));
      }
    }
  }

  lemma CleanStart(m0: seq<Page>, role0: map<nat, Role>, locs0: set<Loc>, st: seq<Status>, pde: seq<nat>, p: nat)
    requires Spaces(m0, role0, locs0, st, pde) && (forall t :: t in role0 ==> IsTable(m0, t))
    requires p < MAX_PROCESS && st[p] != Unuse
    ensures CleanLoop(m0, role0, m0, role0, p, pde[p], USEPAGE)
  {
    hide LocsExact, FixedPages;
    forall t | t in role0 && role0[t].Tab? && role0[t].pid == p
      ensures USEPAGE <= role0[t].dir
    {
      assert RoleOk(m0, role0[t], t, st, pde);
    }
  }

  lemma FreedStart(m0: seq<Page>, mmap0: seq<bool>, role0: map<nat, Role>, locs0: set<Loc>, groups0: map<nat, seq<Loc>>)
    requires Sharing(m0, mmap0, role0.Keys, locs0, groups0)
    ensures DataOnly(m0, locs0, role0)
    ensures Remaining(m0, locs0, m0, locs0) && FreedExactly(m0, locs0, m0, locs0, mmap0)
  {
    forall l, b: nat | l in locs0 && Maps(m0, l, b)
      ensures b !in role0 && b < |mmap0| && !mmap0[b]
    {
      assert EntryOk(m0, mmap0, role0.Keys, groups0, l);
    }
  }

  /** The table at directory entry `i`, if present, is the only one with that role. */
  lemma OwnTables(m0: seq<Page>, role0: map<nat, Role>, locs0: set<Loc>, st: seq<Status>, pde: seq<nat>,
                  m: seq<Page>, role: map<nat, Role>, p: nat, i: nat)
    requires Spaces(m0, role0, locs0, st, pde) && p < MAX_PROCESS && st[p] != Unuse
    requires CleanLoop(m0, role0, m, role, p, pde[p], i)
    ensures pde[p] in role && role[pde[p]] == Dir(p)
    ensures Entry(m, Loc(pde[p], i)) == Entry(m0, Loc(pde[p], i))
    ensures Entry(m, Loc(pde[p], i)).P ==>
      (var t := Entry(m, Loc(pde[p], i)).base; t in role && role[t] == Tab(p, i))
    ensures forall u :: u in role && role[u] == Tab(p, i) ==>
      u == Entry(m, Loc(pde[p], i)).base && Entry(m, Loc(pde[p], i)).P
  {
    hide LocsExact, FixedPages, EntrySame;
    var d := pde[p];
    assert role0[d] == Dir(p) && DirOwns(m0, role0, p, d, ENTRIES);
    forall u | u in role && role[u] == Tab(p, i)
      ensures u == Entry(m, Loc(d, i)).base && Entry(m, Loc(d, i)).P
    {
      assert RoleOk(m0, role0[u], u, st, pde);
    }
  }

  /** What is neither free nor a table nor mapped now was so before. */
  lemma NothingLost(m0: seq<Page>, mmap0: seq<bool>, role0: map<nat, Role>, locs0: set<Loc>,
                    m: seq<Page>, mmap: seq<bool>, role: map<nat, Role>, locs: set<Loc>)
    requires |mmap0| == |mmap| && FreedExactly(m0, locs0, m, locs, mmap)
    requires forall f :: 0 <= f < |mmap| && mmap0[f] ==> mmap[f]
    requires forall u :: u in role0 && u !in role ==> u < |mmap| && mmap[u]
    ensures forall f :: Lost(mmap, m, role, locs, f) ==> Lost(mmap0, m0, role0, locs0, f)
  {
    hide Maps;
  }

  /** exit.c `cleanup`, and the status `sys_exit` sets. The others read what they
      read before, and the frames the process mapped are available again exactly if
      nobody else maps them. */
  method Cleanup(k: Kernel, p: nat)
    requires Inv(k) && p < MAX_PROCESS && k.status.Length == k.pde.Length == MAX_PROCESS
    requires k.status[p] != Unuse && k.status[p] != Deaded
    modifies k`x, k`locs, k`role, k.psl, k.mmap, k.mem, k.status
    ensures Inv(k) && k.status[..] == old(k.status[..])[p := Deaded]
    ensures forall q, i, j | 0 <= q < MAX_PROCESS && q != p && k.status[q] != Unuse && USEPAGE <= i < ENTRIES && 0 <= j < ENTRIES ::
      Read(k.mem[..], k.pde[q], i, j) == Read(old(k.mem[..]), k.pde[q], i, j)
    ensures Remaining(old(k.mem[..]), old(k.locs), k.mem[..], k.locs)
    ensures FreedExactly(old(k.mem[..]), old(k.locs), k.mem[..], k.locs, k.mmap[..])
    ensures forall f :: Lost(k.mmap[..], k.mem[..], k.role, k.locs, f) ==>
      Lost(old(k.mmap[..]), old(k.mem[..]), old(k.role), old(k.locs), f)
  {
    hide Wf, Sharing, Spaces, LocsExact, CleanLoop, Remaining, FreedExactly, DataOnly, Read, Released;
    ghost var m0, mmap0, role0, locs0, groups0 := k.mem[..], k.mmap[..], k.role, k.locs, k.x.groups;
    ghost var st, pde := k.status[..], k.pde[..];
    k.SharingSizes();
    k.TablesFacts();
    CleanStart(m0, role0, locs0, st, pde, p);
    FreedStart(m0, mmap0, role0, locs0, groups0);
    SpacesFacts(m0, role0, locs0, st, pde, p);
    var d := k.pde[p];
    var i := USEPAGE;
    while i < USEENDP
      invariant USEPAGE <= i <= USEENDP
      invariant k.status[..] == st
      invariant k.Core() && LocsExact(k.mem[..], k.role, k.locs)
      invariant CleanLoop(m0, role0, k.mem[..], k.role, p, d, i)
      invariant forall f :: 0 <= f < MAXPAGE && mmap0[f] ==> k.mmap[f]
      invariant forall u :: u in role0 && u !in k.role ==> u < MAXPAGE && k.mmap[u]
      invariant Remaining(m0, locs0, k.mem[..], k.locs) && FreedExactly(m0, locs0, k.mem[..], k.locs, k.mmap[..])
    {
      OwnTables(m0, role0, locs0, st, pde, k.mem[..], k.role, p, i);
      k.TablesFacts();
      if k.mem[d].entries[i].P {
        ReleaseTable(k, p, d, i, m0, role0, locs0);
      } else {
        CleanSkip(m0, role0, k.mem[..], k.role, p, d, i);
      }
      i := i + 1;
    }
    OwnTables(m0, role0, locs0, st, pde, k.mem[..], k.role, p, USEENDP);
    k.TablesFacts();
    ghost var m := k.mem[..];
    k.TableFacts(Entry(m, Loc(d, USEENDP)).base);
    ReleaseEntries(k, k.mem[d].entries[USEENDP].base, USEENDP, m0, locs0);
    k.status[p] := Deaded;
    EndSpaces(m0, role0, locs0, st, pde, m, k.role, p, k.mem[..], k.locs);
    NothingLost(m0, mmap0, role0, locs0, k.mem[..], k.mmap[..], k.role, k.locs);
    forall q, i, j | 0 <= q < MAX_PROCESS && q != p && st[q] != Unuse && USEPAGE <= i < ENTRIES && 0 <= j < ENTRIES
      ensures Read(k.mem[..], pde[q], i, j) == Read(m0, pde[q], i, j)
    {
      EndRead(m0, mmap0, role0, locs0, groups0, st, pde, m, k.role, p, k.mem[..], q, i, j);
    }
  }

  lemma SpacesFacts(m0: seq<Page>, role0: map<nat, Role>, locs0: set<Loc>, st: seq<Status>, pde: seq<nat>, p: nat)
    requires Spaces(m0, role0, locs0, st, pde) && p < MAX_PROCESS && st[p] != Unuse
    ensures LocsExact(m0, role0, locs0) && IsTable(m0, pde[p]) && pde[p] in role0
    ensures Entry(m0, Loc(pde[p], USEENDP)).P
  {
    assert FixedPages(m0, st[p], pde[p]);
  }

  lemma CleanSkip(m0: seq<Page>, role0: map<nat, Role>, m: seq<Page>, role: map<nat, Role>, p: nat, d: nat, i: nat)
    requires CleanLoop(m0, role0, m, role, p, d, i) && i < USEENDP && !Entry(m, Loc(d, i)).P
    requires forall u :: u in role && role[u] == Tab(p, i) ==> Entry(m, Loc(d, i)).P
    ensures CleanLoop(m0, role0, m, role, p, d, i + 1)
  {
    hide EntrySame;
  }

  lemma EndSpaces(m0: seq<Page>, role0: map<nat, Role>, locs0: set<Loc>, st: seq<Status>, pde: seq<nat>,
                  m: seq<Page>, role: map<nat, Role>, p: nat, m3: seq<Page>, locs: set<Loc>)
    requires Spaces(m0, role0, locs0, st, pde) && p < MAX_PROCESS && st[p] != Unuse && st[p] != Deaded
    requires CleanEnd(m0, role0, m, role, p, pde[p], m3) && LocsExact(m3, role, locs)
    ensures Spaces(m3, role, locs, st[p := Deaded], pde)
  {
    hide LocsExact, FixedPages, Roles, CleanEnd;
    EndProcs(m0, role0, locs0, st, pde, m, role, p, m3);
    forall q | 0 <= q < MAX_PROCESS
      ensures FixedPages(m3, st[p := Deaded][q], pde[q])
    {
      EndFixed(m0, role0, locs0, st, pde, m, role, p, m3, q);
    }
  }

  // ---- `cleanchild`, when the parent waits for the dead process

  /** A dead process has one live entry, its kernel stack. */
  lemma DeadFacts(k: Kernel, p: nat)
    requires Inv(k) && p < MAX_PROCESS && k.status.Length == k.pde.Length == MAX_PROCESS && k.status[p] == Deaded
    ensures k.pde[p] in k.role && k.role[k.pde[p]] == Dir(p)
    ensures PrivatePage(k.mem[..], k.pde[p], USEENDP, USEENDP)
    ensures var t := Entry(k.mem[..], Loc(k.pde[p], USEENDP)).base;
      && t in k.role && k.role[t] == Tab(p, USEENDP) && Loc(t, USEENDP) in k.locs
      && EntryOk(k.mem[..], k.mmap[..], k.role.Keys, k.x.groups, Loc(t, USEENDP))
      && (forall l :: l in k.locs && l.table == t ==> l.entry == USEENDP)
    ensures forall u :: u in k.role && k.role[u].pid == p ==>
      u == k.pde[p] || u == Entry(k.mem[..], Loc(k.pde[p], USEENDP)).base
  {
    hide Wf, Sharing;
    var m, d := k.mem[..], k.pde[p];
    assert FixedPages(m, Deaded, d);
    PageLoc(m, k.role, k.locs, k.status[..], k.pde[..], p, USEENDP, USEENDP);
    k.LocFacts(Loc(Entry(m, Loc(d, USEENDP)).base, USEENDP));
    forall u | u in k.role && k.role[u].pid == p
      ensures u == d || u == Entry(m, Loc(d, USEENDP)).base
    {
      assert RoleOk(m, k.role[u], u, k.status[..], k.pde[..]);
    }
  }

  /** From `m` to `m3` only the last table `t` of the dead process `p` changed. */
  ghost predicate Reaping(m: seq<Page>, role: map<nat, Role>, st: seq<Status>, pde: seq<nat>, p: nat, t: nat, m3: seq<Page>) {
    && |st| == |pde| == MAX_PROCESS && p < MAX_PROCESS && st[p] == Deaded && pde[p] in role
    && t in role && role[t] == Tab(p, USEENDP) && |m3| == |m|
    && (forall u :: u in role ==> IsTable(m, u))
    && (forall u :: u in role && role[u].pid == p ==> u == pde[p] || u == t)
    && (forall u :: 0 <= u < |m| && u != t ==> m3[u] == m[u])
  }

  lemma ReapProcs(m: seq<Page>, role: map<nat, Role>, st: seq<Status>, pde: seq<nat>, p: nat, t: nat, m3: seq<Page>)
    requires Reaping(m, role, st, pde, p, t, m3) && Procs(m, role, st, pde) && Roles(m, role, st, pde)
    ensures Procs(m3, role - {t} - {pde[p]}, st[p := Unuse], pde) && Roles(m3, role - {t} - {pde[p]}, st[p := Unuse], pde)
  {
    var role2, st2 := role - {t} - {pde[p]}, st[p := Unuse];
    forall q | 0 <= q < MAX_PROCESS && st2[q] != Unuse
      ensures pde[q] in role2 && role2[pde[q]] == Dir(q) && IsTable(m3, pde[q]) && DirOwns(m3, role2, q, pde[q], ENTRIES)
    {
      assert role[pde[q]] == Dir(q) && DirOwns(m, role, q, pde[q], ENTRIES);
    }
    forall u | u in role2
      ensures RoleOk(m3, role2[u], u, st2, pde)
    {
      assert RoleOk(m, role[u], u, st, pde) && role[pde[role[u].pid]] == Dir(role[u].pid);
    }
  }

  lemma ReapFixed(m: seq<Page>, role: map<nat, Role>, st: seq<Status>, pde: seq<nat>, p: nat, t: nat, m3: seq<Page>, q: nat)
    requires Reaping(m, role, st, pde, p, t, m3) && Procs(m, role, st, pde)
    requires q < MAX_PROCESS && st[q] != Unuse && q != p && FixedPages(m, st[q], pde[q])
    ensures FixedPages(m3, st[q], pde[q])
  {
    assert role[pde[q]] == Dir(q) && DirOwns(m, role, q, pde[q], ENTRIES);
    if Entry(m, Loc(pde[q], USEPAGE)).P { assert role[Entry(m, Loc(pde[q], USEPAGE)).base] == Tab(q, USEPAGE); }
    if Entry(m, Loc(pde[q], USEENDP)).P { assert role[Entry(m, Loc(pde[q], USEENDP)).base] == Tab(q, USEENDP); }
  }

  lemma ReapLocs(m: seq<Page>, role: map<nat, Role>, locs: set<Loc>, st: seq<Status>, pde: seq<nat>, p: nat, t: nat, m3: seq<Page>)
    requires Reaping(m, role, st, pde, p, t, m3) && LocsExact(m, role, locs) && role[pde[p]].Dir?
    requires forall l :: l in locs && l.table == t ==> l.entry == USEENDP
    ensures LocsExact(m3, role - {t} - {pde[p]}, locs - {Loc(t, USEENDP)})
  {
  }

  lemma ReapSpaces(m: seq<Page>, role: map<nat, Role>, locs: set<Loc>, st: seq<Status>, pde: seq<nat>, p: nat, t: nat, m3: seq<Page>)
    requires Spaces(m, role, locs, st, pde) && Reaping(m, role, st, pde, p, t, m3) && role[pde[p]].Dir?
    requires forall l :: l in locs && l.table == t ==> l.entry == USEENDP
    ensures Spaces(m3, role - {t} - {pde[p]}, locs - {Loc(t, USEENDP)}, st[p := Unuse], pde)
  {
    hide Procs, Roles, LocsExact, FixedPages, Reaping;
    ReapProcs(m, role, st, pde, p, t, m3);
    ReapLocs(m, role, locs, st, pde, p, t, m3);
    ReapSizes(m, role, st, pde, p, t, m3);
    forall q | 0 <= q < MAX_PROCESS
      ensures FixedPages(m3, st[p := Unuse][q], pde[q])
    {
      if q != p && st[q] != Unuse {
        ReapFixed(m, role, st, pde, p, t, m3, q);
      } else {
        UnusedFixed(m3, pde[q]);
      }
    }
  }

  lemma ReapSizes(m: seq<Page>, role: map<nat, Role>, st: seq<Status>, pde: seq<nat>, p: nat, t: nat, m3: seq<Page>)
    requires Reaping(m, role, st, pde, p, t, m3)
    ensures |st| == |pde| == MAX_PROCESS && p < MAX_PROCESS
  {
  }

  lemma ReapRead(m: seq<Page>, mmap: seq<bool>, role: map<nat, Role>, locs: set<Loc>, groups: map<nat, seq<Loc>>,
                 st: seq<Status>, pde: seq<nat>, p: nat, t: nat, m3: seq<Page>, q: nat, i: nat, j: nat)
    requires Sharing(m, mmap, role.Keys, locs, groups) && Spaces(m, role, locs, st, pde)
    requires t in role && role[t] == Tab(p, USEENDP) && |m3| == |m|
    requires forall f :: 0 <= f < |m| && f != t ==> m3[f] == m[f]
    requires q < MAX_PROCESS && st[q] != Unuse && q != p && USEPAGE <= i < ENTRIES && j < ENTRIES
    ensures Read(m3, pde[q], i, j) == Read(m, pde[q], i, j)
  {
    assert role[pde[q]] == Dir(q);
    if Entry(m, Loc(pde[q], i)).P {
      PageLoc(m, role, locs, st, pde, q, i, j);
      var u := Entry(m, Loc(pde[q], i)).base;
      if Entry(m, Loc(u, j)).P { assert EntryOk(m, mmap, role.Keys, groups, Loc(u, j)); }
    }
  }

  /** Only the table is lost when a child is reaped. */
  lemma OneLost(m0: seq<Page>, mmap0: seq<bool>, role0: map<nat, Role>, locs0: set<Loc>, l: Loc, base: nat, d: nat, t: nat, m: seq<Page>)
    requires base < |mmap0| && d < |mmap0| && IsTable(m0, l.table) && l.entry < ENTRIES && Entry(m0, l).base == base
    requires m == SetEntry(m0, l, Entry(m0, l).(P := false))
    ensures forall f :: Lost(mmap0[base := true][d := true], m, role0 - {t} - {d}, locs0 - {l}, f) ==>
      f == t || Lost(mmap0, m0, role0, locs0, f)
  {
    forall f | Lost(mmap0[base := true][d := true], m, role0 - {t} - {d}, locs0 - {l}, f) && f != t
      ensures Lost(mmap0, m0, role0, locs0, f)
    {
      forall q | q in locs0
        ensures !Maps(m0, q, f)
      {
        if q != l { assert !Maps(m, q, f); }
      }
    }
  }

  /** exit.c `cleanchild`. The kernel stack and the directory are given back; the frame
      `t` of the last table is not, although no process has it any more. */
  method CleanChild(k: Kernel, p: nat) returns (ghost t: nat)
    requires Inv(k) && p < MAX_PROCESS && k.status.Length == k.pde.Length == MAX_PROCESS && k.status[p] == Deaded
    modifies k`locs, k`role, k.mmap, k.mem, k.status
    ensures Inv(k) && k.status[..] == old(k.status[..])[p := Unuse]
    ensures forall q, i, j | 0 <= q < MAX_PROCESS && k.status[q] != Unuse && USEPAGE <= i < ENTRIES && 0 <= j < ENTRIES ::
      Read(k.mem[..], k.pde[q], i, j) == Read(old(k.mem[..]), k.pde[q], i, j)
    ensures t in old(k.role) && t !in k.role && t < k.mmap.Length && !k.mmap[t] && k.pde[p] < k.mmap.Length && k.mmap[k.pde[p]]
    ensures forall f :: Lost(k.mmap[..], k.mem[..], k.role, k.locs, f) ==>
      f == t || Lost(old(k.mmap[..]), old(k.mem[..]), old(k.role), old(k.locs), f)
  {
    hide Wf, Sharing, Spaces, Read, SetEntry, Unmapped;
    ghost var m0, mmap0, role0, locs0, groups0 := k.mem[..], k.mmap[..], k.role, k.locs, k.x.groups;
    ghost var st, pde := k.status[..], k.pde[..];
    k.SharingSizes();
    k.TablesFacts();
    DeadFacts(k, p);
    var d := k.pde[p];
    var last := k.mem[d].entries[USEENDP].base;
    t := last;
    k.TableFacts(d);
    k.TableFacts(t);
    ghost var l := Loc(t, USEENDP);
    var base := k.mem[last].entries[USEENDP].base;
    AbandonKeeps(m0, mmap0, role0.Keys, locs0, groups0, l);
    k.locs := k.locs - {l};
    FreeKeeps(m0, k.mmap[..], role0.Keys, k.locs, groups0, base);
    var r := k.FreePage(base);
    ghost var e := Entry(m0, l).(P := false);
    RewriteKeeps(m0, k.mmap[..], role0.Keys, k.locs, groups0, l, e);
    SetEntryAt(m0, role0.Keys, l, e);
    k.SetEntryIs(m0, l, e);
    k.mem[last] := Table(k.mem[last].entries[USEENDP := k.mem[last].entries[USEENDP].(P := false)]);
    DropTableKeeps(k.mem[..], k.mmap[..], role0.Keys, k.locs, groups0, t);
    DropTableKeeps(k.mem[..], k.mmap[..], role0.Keys - {t}, k.locs, groups0, d);
    FreeKeeps(k.mem[..], k.mmap[..], role0.Keys - {t} - {d}, k.locs, groups0, d);
    k.role := k.role - {t} - {d};
    assert k.role.Keys == role0.Keys - {t} - {d};
    r := k.FreePage(k.pde[p]);
    k.status[p] := Unuse;
    ReapSpaces(m0, role0, locs0, st, pde, p, t, k.mem[..]);
    OneLost(m0, mmap0, role0, locs0, l, base, d, t, k.mem[..]);
    forall q, i, j | 0 <= q < MAX_PROCESS && k.status[q] != Unuse && USEPAGE <= i < ENTRIES && 0 <= j < ENTRIES
      ensures Read(k.mem[..], k.pde[q], i, j) == Read(m0, k.pde[q], i, j)
    {
      ReapRead(m0, mmap0, role0, locs0, groups0, st, pde, p, t, k.mem[..], q, i, j);
    }
  }
}
