/** The page share list: one array that packs, for every shared frame, a header
    slot and a chain of member slots, and keeps all remaining slots free. */
module PageShareList {
  import opened Basics
  import opened Paging

  const MAX_SHRLC := 0x20000
  const LINKS := 0x10000       // `next` and `index` are 16-bit fields

  /** A header has the shared frame in `pagec` and the number of members in
      `index`; a member has a table frame and an entry number there. */
  datatype Slot = Slot(pagec: nat, index: nat, next: nat)

  /** What the array means: who shares each frame, and which slots say so. */
  datatype Index = Index(
    groups: map<nat, seq<Loc>>,      // shared frame -> the entries that map it
    head: map<nat, nat>,             // shared frame -> its header slot
    members: map<nat, seq<nat>>,     // shared frame -> its member slots, in chain order
    holder: map<nat, nat>)           // slot in use -> the frame it serves

  /** Header `h` and members `m`, linked in that order and ended by 0, say that
      the entries `g` share frame `f`. */
  ghost predicate ChainOk(psl: seq<Slot>, f: nat, h: nat, m: seq<nat>, g: seq<Loc>)
    requires |psl| == MAX_SHRLC
  {
    && f != 0 && |m| == |g| && |g| >= 2
    && 1 <= h < LINKS && h !in m
    && psl[h] == Slot(f, |g|, m[0])
    && (forall k :: 0 <= k < |m| ==> 1 <= m[k] < LINKS)
    && (forall k, l :: 0 <= k < l < |m| ==> m[k] != m[l])
    && (forall k :: 0 <= k < |m| ==> psl[m[k]].pagec == g[k].table && psl[m[k]].index == g[k].entry)
    && (forall k, l :: 0 <= k < |m| && 0 <= l < |m| && l == k + 1 ==> psl[m[k]].next == m[l])
    && psl[m[|m| - 1]].next == 0
    && (forall k :: 0 <= k < |g| ==> g[k].table != 0)
    && (forall k, l :: 0 <= k < l < |g| ==> g[k].table != g[l].table)
  }

  ghost predicate Chains(psl: seq<Slot>, x: Index)
    requires |psl| == MAX_SHRLC && x.groups.Keys == x.head.Keys == x.members.Keys
  {
    forall f :: f in x.groups ==> ChainOk(psl, f, x.head[f], x.members[f], x.groups[f])
  }

  /** `holder` inverts `head` and `members`: no slot serves two frames. */
  ghost predicate Holders(x: Index)
    requires x.groups.Keys == x.head.Keys == x.members.Keys
  {
    && (forall f :: f in x.groups ==> x.head[f] in x.holder && x.holder[x.head[f]] == f)
    && (forall f, k :: f in x.groups && 0 <= k < |x.members[f]| ==>
          x.members[f][k] in x.holder && x.holder[x.members[f][k]] == f)
    && (forall s :: s in x.holder ==>
          x.holder[s] in x.groups && (s == x.head[x.holder[s]] || s in x.members[x.holder[s]]))
  }

  /** Exactly the slots in no chain are free. */
  ghost predicate UsedSlots(psl: seq<Slot>, x: Index)
    requires |psl| == MAX_SHRLC
  {
    forall s :: 1 <= s < MAX_SHRLC ==> (psl[s].pagec != 0 <==> s in x.holder)
  }

  /** No table that shares a frame is itself a shared frame. */
  ghost predicate Apart(groups: map<nat, seq<Loc>>) {
    forall f, g :: f in groups && g in groups ==> NotSharing(f, groups[g])
  }

  ghost predicate NotSharing(t: nat, g: seq<Loc>) {
    forall k :: 0 <= k < |g| ==> g[k].table != t
  }

  /** The list is well formed and means `x`. */
  ghost predicate Wf(psl: seq<Slot>, x: Index) {
    && |psl| == MAX_SHRLC
    && x.groups.Keys == x.head.Keys == x.members.Keys
    && Chains(psl, x) && Holders(x) && UsedSlots(psl, x) && Apart(x.groups)
  }

  /** The slots a 16-bit link can reach that are free. */
  function FreeSlots(psl: seq<Slot>): set<nat>
    requires |psl| == MAX_SHRLC
  {
    set s: nat | 1 <= s < LINKS && psl[s].pagec == 0
  }

  /** Distinct 16-bit slots are fewer than 65536, so a member count fits its field. */
  lemma {:induction false} CountFits(m: seq<nat>)
    requires forall k :: 0 <= k < |m| ==> 1 <= m[k] < LINKS
    requires forall k, l :: 0 <= k < l < |m| ==> m[k] != m[l]
    ensures |m| < LINKS
  {
    DistinctBelow(m, LINKS);
  }

  lemma {:induction false} DistinctBelow(m: seq<nat>, n: nat)
    requires n > 0
    requires forall k :: 0 <= k < |m| ==> 1 <= m[k] < n
    requires forall k, l :: 0 <= k < l < |m| ==> m[k] != m[l]
    ensures |m| < n
    decreases n
  {
    if |m| > 0 {
      if k :| 0 <= k < |m| && m[k] == n - 1 {
        DistinctBelow(m[..k] + m[k + 1..], n - 1);
      } else {
        assert 1 <= m[0] < n - 1;
        DistinctBelow(m, n - 1);
      }
    }
  }

  // ---- the four ways the list changes, first for one chain

  /** The array after member `l` was chained behind `last` in slot `s`. */
  function AppendSlots(psl: seq<Slot>, h: nat, n: nat, last: nat, s: nat, l: Loc): seq<Slot>
    requires |psl| == MAX_SHRLC && h < |psl| && last < |psl| && s < |psl|
  {
    psl[h := psl[h].(index := n)][last := psl[last].(next := s)][s := Slot(l.table, l.entry, 0)]
  }

  lemma AppendChain(psl: seq<Slot>, f: nat, h: nat, m: seq<nat>, g: seq<Loc>, s: nat, l: Loc)
    requires |psl| == MAX_SHRLC && ChainOk(psl, f, h, m, g)
    requires 1 <= s < LINKS && s != h && s !in m
    requires l.table != 0 && NotSharing(l.table, g)
    ensures var p := AppendSlots(psl, h, |g| + 1, m[|m| - 1], s, l);
      && ChainOk(p, f, h, m + [s], g + [l])
      && |p| == |psl| && (forall t :: 0 <= t < |p| && t != h && t != s && t !in m ==> p[t] == psl[t])
      && p[s].pagec != 0 && (forall t :: 0 <= t < |p| && t != s ==> p[t].pagec == psl[t].pagec)
  {
    hide AppendSlots;
    var p := AppendSlots(psl, h, |g| + 1, m[|m| - 1], s, l);
    AppendPoints(psl, h, |g| + 1, m[|m| - 1], s, l);
    LongerChain(psl, f, h, m, g, s, l, p);
  }

  /** What `AppendSlots` does slot by slot. */
  lemma AppendPoints(psl: seq<Slot>, h: nat, n: nat, last: nat, s: nat, l: Loc)
    requires |psl| == MAX_SHRLC && h < |psl| && last < |psl| && s < |psl| && h != last && h != s && last != s
    ensures var p := AppendSlots(psl, h, n, last, s, l);
      && |p| == |psl| && p[h] == psl[h].(index := n) && p[last] == psl[last].(next := s)
      && p[s] == Slot(l.table, l.entry, 0)
      && forall t :: 0 <= t < |p| && t != h && t != last && t != s ==> p[t] == psl[t]
  {
  }

  lemma LongerChain(psl: seq<Slot>, f: nat, h: nat, m: seq<nat>, g: seq<Loc>, s: nat, l: Loc, p: seq<Slot>)
    requires |psl| == |p| == MAX_SHRLC && ChainOk(psl, f, h, m, g)
    requires 1 <= s < LINKS && s != h && s !in m && l.table != 0 && NotSharing(l.table, g)
    requires p[h] == psl[h].(index := |g| + 1) && p[m[|m| - 1]] == psl[m[|m| - 1]].(next := s)
    requires p[s] == Slot(l.table, l.entry, 0)
    requires forall t :: 0 <= t < |p| && t != h && t != m[|m| - 1] && t != s ==> p[t] == psl[t]
    ensures ChainOk(p, f, h, m + [s], g + [l])
  {
    LongerMembers(psl, f, h, m, g, s, l, p);
    LongerLinks(psl, f, h, m, g, s, p);
    assert (m + [s])[0] == m[0];
  }

  lemma LongerMembers(psl: seq<Slot>, f: nat, h: nat, m: seq<nat>, g: seq<Loc>, s: nat, l: Loc, p: seq<Slot>)
    requires |psl| == |p| == MAX_SHRLC && ChainOk(psl, f, h, m, g)
    requires 1 <= s < LINKS && s != h && s !in m && l.table != 0 && NotSharing(l.table, g)
    requires p[m[|m| - 1]] == psl[m[|m| - 1]].(next := s) && p[s] == Slot(l.table, l.entry, 0)
    requires forall t :: 0 <= t < |p| && t != h && t != m[|m| - 1] && t != s ==> p[t] == psl[t]
    ensures var m', g' := m + [s], g + [l];
      && (forall k :: 0 <= k < |m'| ==> 1 <= m'[k] < LINKS && m'[k] != h)
      && (forall k, l :: 0 <= k < l < |m'| ==> m'[k] != m'[l])
      && (forall k :: 0 <= k < |m'| ==> p[m'[k]].pagec == g'[k].table && p[m'[k]].index == g'[k].entry)
      && (forall k :: 0 <= k < |g'| ==> g'[k].table != 0)
      && (forall k, l :: 0 <= k < l < |g'| ==> g'[k].table != g'[l].table)
  {
  }

  lemma LongerLinks(psl: seq<Slot>, f: nat, h: nat, m: seq<nat>, g: seq<Loc>, s: nat, p: seq<Slot>)
    requires |psl| == |p| == MAX_SHRLC && ChainOk(psl, f, h, m, g) && 1 <= s < LINKS && s !in m
    requires p[m[|m| - 1]] == psl[m[|m| - 1]].(next := s)
    requires forall t :: 0 <= t < |p| && t != h && t != m[|m| - 1] && t != s ==> p[t] == psl[t]
    ensures var m' := m + [s];
      forall k, l :: 0 <= k < |m'| && 0 <= l < |m'| && l == k + 1 ==> m'[k] < |p| && p[m'[k]].next == m'[l]
  {
    var m' := m + [s];
    forall k, l | 0 <= k < |m'| && 0 <= l < |m'| && l == k + 1
      ensures m'[k] < |p| && p[m'[k]].next == m'[l]
    {
      assert m'[k] == m[k] && m[k] != h;
    }
  }

  /** The array after slot `s`, found after slot `before`, was unchained. */
  function DropSlots(psl: seq<Slot>, h: nat, n: nat, before: nat, s: nat): seq<Slot>
    requires |psl| == MAX_SHRLC && h < |psl| && before < |psl| && s < |psl|
  {
    var p := psl[h := psl[h].(index := n)][s := psl[s].(pagec := 0)];
    p[before := p[before].(next := p[s].next)]
  }

  lemma DropChain(psl: seq<Slot>, f: nat, h: nat, m: seq<nat>, g: seq<Loc>, k: nat)
    requires |psl| == MAX_SHRLC && ChainOk(psl, f, h, m, g)
    requires k < |m| && |m| > 2
    ensures ChainOk(DropSlots(psl, h, |g| - 1, if k == 0 then h else m[k - 1], m[k]),
                    f, h, RemoveAt(m, k), RemoveAt(g, k))
  {
    hide DropSlots, RemoveAt;
    var before := if k == 0 then h else m[k - 1];
    var p := DropSlots(psl, h, |g| - 1, before, m[k]);
    assert psl[m[k]].next == if k + 1 < |m| then m[k + 1] else 0;
    DropPoints(psl, h, |g| - 1, before, m[k]);
    if k > 0 { assert psl[before].next == m[k]; }
    ShorterChain(psl, f, h, m, g, k, p);
  }

  /** What `DropSlots` does slot by slot. */
  lemma DropPoints(psl: seq<Slot>, h: nat, n: nat, before: nat, s: nat)
    requires |psl| == MAX_SHRLC && h < |psl| && before < |psl| && s < |psl| && before != s && h != s
    ensures var p := DropSlots(psl, h, n, before, s);
      && |p| == |psl| && p[h].pagec == psl[h].pagec && p[h].index == n
      && (forall t :: 0 <= t < |p| && t != h && t != s ==> p[t].pagec == psl[t].pagec && p[t].index == psl[t].index)
      && (forall t :: 0 <= t < |p| && t != before ==> p[t].next == psl[t].next)
      && p[before].next == psl[s].next
  {
  }

  lemma ShorterChain(psl: seq<Slot>, f: nat, h: nat, m: seq<nat>, g: seq<Loc>, k: nat, p: seq<Slot>)
    requires |psl| == |p| == MAX_SHRLC && ChainOk(psl, f, h, m, g)
    requires k < |m| && |m| > 2
    requires p[h] == Slot(f, |g| - 1, if k == 0 then m[1] else m[0])
    requires forall t :: 0 <= t < |p| && t != h && t != m[k] ==> p[t].pagec == psl[t].pagec && p[t].index == psl[t].index
    requires var before := if k == 0 then h else m[k - 1];
      && (forall t :: 0 <= t < |p| && t != before ==> p[t].next == psl[t].next)
      && p[before].next == if k + 1 < |m| then m[k + 1] else 0
    ensures ChainOk(p, f, h, RemoveAt(m, k), RemoveAt(g, k))
  {
    hide RemoveAt;
    ShorterDistinct(m, g, k);
    ShorterLinks(psl, m, k, p);
  }

  lemma ShorterDistinct(m: seq<nat>, g: seq<Loc>, k: nat)
    requires k < |m| == |g|
    requires forall i, j :: 0 <= i < j < |m| ==> m[i] != m[j] && g[i].table != g[j].table
    ensures var m', g' := RemoveAt(m, k), RemoveAt(g, k);
      forall i, j :: 0 <= i < j < |m'| ==> m'[i] != m'[j] && g'[i].table != g'[j].table
    ensures forall i :: 0 <= i < |m| - 1 ==> RemoveAt(m, k)[i] != m[k]
  {
    hide RemoveAt;
  }

  lemma ShorterLinks(psl: seq<Slot>, m: seq<nat>, k: nat, p: seq<Slot>)
    requires |psl| == |p| == MAX_SHRLC && k < |m| && |m| > 2
    requires forall i :: 0 <= i < |m| ==> m[i] < MAX_SHRLC
    requires forall i, j :: 0 <= i < j < |m| ==> m[i] != m[j]
    requires forall i, j :: 0 <= i < |m| && 0 <= j < |m| && j == i + 1 ==> psl[m[i]].next == m[j]
    requires psl[m[|m| - 1]].next == 0
    requires forall i :: 0 <= i < |m| && (k == 0 || i != k - 1) ==> p[m[i]].next == psl[m[i]].next
    requires k > 0 ==> p[m[k - 1]].next == if k + 1 < |m| then m[k + 1] else 0
    ensures var m' := RemoveAt<nat>(m, k);
      && |m'| == |m| - 1 && (forall i :: 0 <= i < |m'| ==> m'[i] < MAX_SHRLC)
      && (forall i, j :: 0 <= i < |m'| && 0 <= j < |m'| && j == i + 1 ==> p[m'[i]].next == m'[j])
      && p[m'[|m'| - 1]].next == 0
  {
    hide RemoveAt;
  }

  lemma DropFrame(psl: seq<Slot>, h: nat, n: nat, before: nat, s: nat)
    requires |psl| == MAX_SHRLC && h < |psl| && before < |psl| && s < |psl| && before != s && h != s
    ensures var p := DropSlots(psl, h, n, before, s);
      && |p| == |psl| && (forall t :: 0 <= t < |p| && t != h && t != before && t != s ==> p[t] == psl[t])
      && p[s].pagec == 0 && (forall t :: 0 <= t < |p| && t != s ==> p[t].pagec == psl[t].pagec)
  {
  }

  // ---- then for the whole list

  /** What a chain in use says about its slots. */
  lemma ChainFacts(psl: seq<Slot>, x: Index, f: nat)
    requires Wf(psl, x) && f in x.groups
    ensures ChainOk(psl, f, x.head[f], x.members[f], x.groups[f])
    ensures forall s :: s in FreeSlots(psl) ==> s !in x.holder && s != x.head[f] && s !in x.members[f]
    ensures x.head[f] in x.holder && x.holder[x.head[f]] == f
    ensures 1 <= x.head[f] < LINKS && psl[x.head[f]].pagec == f != 0 && x.head[f] !in x.members[f]
    ensures |x.members[f]| == |x.groups[f]| >= 2
    ensures forall k :: 0 <= k < |x.members[f]| ==>
      x.members[f][k] in x.holder && x.holder[x.members[f][k]] == f
    ensures forall k :: 0 <= k < |x.members[f]| ==>
      1 <= x.members[f][k] < LINKS && psl[x.members[f][k]].pagec != 0
    ensures forall k, l :: 0 <= k < l < |x.members[f]| ==> x.members[f][k] != x.members[f][l]
  {
    hide Apart;
    assert ChainOk(psl, f, x.head[f], x.members[f], x.groups[f]);
  }

  /** A change that touches the slots of frame `f` and free slots only keeps
      every other chain. */
  /** What walking along a chain needs to know. */
  lemma ChainLinks(psl: seq<Slot>, f: nat, h: nat, m: seq<nat>, g: seq<Loc>)
    requires |psl| == MAX_SHRLC && ChainOk(psl, f, h, m, g)
    ensures psl[h] == Slot(f, |g|, m[0]) && forall k :: 0 <= k < |m| ==> 1 <= m[k] < LINKS && m[k] != h
    ensures forall k, l :: 0 <= k < |m| && 0 <= l < |m| && l == k + 1 ==> psl[m[k]].next == m[l]
    ensures psl[m[|m| - 1]].next == 0
    ensures forall k :: 0 <= k < |m| ==> psl[m[k]].pagec == g[k].table && psl[m[k]].index == g[k].entry
    ensures forall k, l :: 0 <= k < l < |g| ==> g[k].table != g[l].table
  {
  }

  lemma ChainsAfter(psl: seq<Slot>, x: Index, f: nat, p: seq<Slot>, y: Index)
    requires Wf(psl, x) && |p| == MAX_SHRLC
    requires y.groups.Keys == y.head.Keys == y.members.Keys
    requires forall e :: e in y.groups && e != f ==>
      e in x.groups && y.groups[e] == x.groups[e] && y.head[e] == x.head[e] && y.members[e] == x.members[e]
    requires forall t :: t in x.holder && x.holder[t] != f && t < MAX_SHRLC ==> p[t] == psl[t]
    requires f in y.groups ==> ChainOk(p, f, y.head[f], y.members[f], y.groups[f])
    ensures Chains(p, y)
  {
    hide Holders, UsedSlots, Apart, ChainOk, FreeSlots;
    forall e | e in y.groups && e != f
      ensures ChainOk(p, e, y.head[e], y.members[e], y.groups[e])
    {
      ChainFacts(psl, x, e);
      SameChain(psl, e, x.head[e], x.members[e], x.groups[e], p);
    }
  }

  lemma SameChain(psl: seq<Slot>, f: nat, h: nat, m: seq<nat>, g: seq<Loc>, p: seq<Slot>)
    requires |psl| == |p| == MAX_SHRLC && ChainOk(psl, f, h, m, g)
    requires p[h] == psl[h] && forall k :: 0 <= k < |m| ==> p[m[k]] == psl[m[k]]
    ensures ChainOk(p, f, h, m, g)
  {
  }

  /** Taking the free slots `added`, or giving back the slots `removed`. */
  lemma UsedAfter(psl: seq<Slot>, x: Index, p: seq<Slot>, y: Index, added: set<nat>, removed: set<nat>)
    requires |psl| == |p| == MAX_SHRLC && UsedSlots(psl, x)
    requires added <= FreeSlots(psl) && removed !! added
    requires forall t :: t in removed ==> 1 <= t < LINKS
    requires forall t :: 1 <= t < MAX_SHRLC ==>
      (p[t].pagec != 0 <==> (psl[t].pagec != 0 && t !in removed) || t in added)
    requires y.holder.Keys == x.holder.Keys + added - removed
    ensures UsedSlots(p, y) && FreeSlots(p) == FreeSlots(psl) - added + removed
  {
  }

  function Appended(x: Index, f: nat, l: Loc, s: nat): Index
    requires f in x.groups && f in x.members
  {
    x.(groups := x.groups[f := x.groups[f] + [l]],
       members := x.members[f := x.members[f] + [s]],
       holder := x.holder[s := f])
  }

  /** Chaining one more member behind the last one. */
  lemma AppendKeepsWf(psl: seq<Slot>, x: Index, f: nat, l: Loc, s: nat)
    requires Wf(psl, x) && f in x.groups && s in FreeSlots(psl)
    requires l.table != 0 && l.table !in x.groups && NotSharing(l.table, x.groups[f])
    ensures ChainOk(psl, f, x.head[f], x.members[f], x.groups[f])
    ensures var p := AppendSlots(psl, x.head[f], |x.groups[f]| + 1, x.members[f][|x.groups[f]| - 1], s, l);
      Wf(p, Appended(x, f, l, s)) && FreeSlots(p) == FreeSlots(psl) - {s}
    ensures |x.groups[f]| + 1 < LINKS
  {
    hide Chains, Holders, UsedSlots, Apart, ChainOk, FreeSlots, AppendSlots;
    ChainFacts(psl, x, f);
    AppendHolders(x, f, l, s);
    AppendApart(x, f, l, s);
    FreeMeans(psl, s);
    var h, m, g := x.head[f], x.members[f], x.groups[f];
    var p, y := AppendSlots(psl, h, |g| + 1, m[|m| - 1], s, l), Appended(x, f, l, s);
    assert |g| + 1 < LINKS by { CountFits(m + [s]); }
    AppendChain(psl, f, h, m, g, s, l);
    assert UsedSlots(p, y) && FreeSlots(p) == FreeSlots(psl) - {s} by { UsedAfter(psl, x, p, y, {s}, {}); }
    AppendChains(psl, x, f, l, s, p, y);
  }

  lemma AppendChains(psl: seq<Slot>, x: Index, f: nat, l: Loc, s: nat, p: seq<Slot>, y: Index)
    requires f in x.groups && f in x.head && f in x.members && s !in x.holder && |p| == |psl| == MAX_SHRLC
    requires ChainOk(p, f, x.head[f], x.members[f] + [s], x.groups[f] + [l])
    requires forall t :: 0 <= t < |p| && t != x.head[f] && t != s && t !in x.members[f] ==> p[t] == psl[t]
    requires y == Appended(x, f, l, s) && y.groups.Keys == y.head.Keys == y.members.Keys && Wf(psl, x)
    ensures Chains(p, y)
  {
    hide Chains, Holders, UsedSlots, Apart, ChainOk, FreeSlots;
    ChainFacts(psl, x, f);
    ChainsAfter(psl, x, f, p, y);
  }

  lemma FreeMeans(psl: seq<Slot>, s: nat)
    requires |psl| == MAX_SHRLC && s in FreeSlots(psl)
    ensures 1 <= s < LINKS && psl[s].pagec == 0
  {
  }

  lemma AppendApart(x: Index, f: nat, l: Loc, s: nat)
    requires f in x.groups && f in x.members && Apart(x.groups) && l.table !in x.groups
    ensures Apart(Appended(x, f, l, s).groups)
  {
    var gs := Appended(x, f, l, s).groups;
    forall e, d | e in gs && d in gs
      ensures NotSharing(e, gs[d])
    {
      assert NotSharing(e, x.groups[d]);
    }
  }

  lemma AppendHolders(x: Index, f: nat, l: Loc, s: nat)
    requires x.groups.Keys == x.head.Keys == x.members.Keys
    requires Holders(x) && f in x.groups && s !in x.holder
    ensures Holders(Appended(x, f, l, s))
  {
    var y := Appended(x, f, l, s);
    assert y.members[f][|x.members[f]|] == s;
    forall t | t in y.holder
      ensures y.holder[t] in y.groups && (t == y.head[y.holder[t]] || t in y.members[y.holder[t]])
    {
      if t != s && t in x.members[x.holder[t]] {
        assert x.members[x.holder[t]] <= y.members[x.holder[t]];
      }
    }
  }

  function Started(x: Index, f: nat, a: Loc, b: Loc, h: nat, s: nat, t: nat): Index {
    Index(x.groups[f := [a, b]], x.head[f := h], x.members[f := [s, t]],
          x.holder[h := f][s := f][t := f])
  }

  /** The array after a chain of two was started. */
  function StartSlots(psl: seq<Slot>, f: nat, a: Loc, b: Loc, h: nat, s: nat, t: nat): seq<Slot>
    requires |psl| == MAX_SHRLC && h < |psl| && s < |psl| && t < |psl|
  {
    psl[h := Slot(f, 2, s)][s := Slot(a.table, a.entry, t)][t := Slot(b.table, b.entry, 0)]
  }

  /** Starting a chain of two for a frame that was not shared. */
  lemma StartKeepsWf(psl: seq<Slot>, x: Index, f: nat, a: Loc, b: Loc, h: nat, s: nat, t: nat)
    requires Wf(psl, x) && f !in x.groups && f != 0
    requires h in FreeSlots(psl) && s in FreeSlots(psl) && t in FreeSlots(psl) && h != s && h != t && s != t
    requires a.table != 0 && b.table != 0 && a.table != b.table && a.table != f && b.table != f
    requires a.table !in x.groups && b.table !in x.groups
    requires forall g :: g in x.groups ==> NotSharing(f, x.groups[g])
    ensures var p := StartSlots(psl, f, a, b, h, s, t);
      Wf(p, Started(x, f, a, b, h, s, t)) && FreeSlots(p) == FreeSlots(psl) - {h, s, t}
  {
    hide Chains, Holders, UsedSlots, Apart, ChainOk, FreeSlots, StartSlots;
    FreeUnheld(psl, x, h);
    FreeUnheld(psl, x, s);
    FreeUnheld(psl, x, t);
    StartHolders(x, f, a, b, h, s, t);
    StartApart(x, f, a, b, h, s, t);
    StartChain(psl, f, a, b, h, s, t);
    var p, y := StartSlots(psl, f, a, b, h, s, t), Started(x, f, a, b, h, s, t);
    assert Chains(p, y) by { ChainsAfter(psl, x, f, p, y); }
    StartUsed(psl, x, f, a, b, h, s, t, p);
  }

  lemma StartUsed(psl: seq<Slot>, x: Index, f: nat, a: Loc, b: Loc, h: nat, s: nat, t: nat, p: seq<Slot>)
    requires |psl| == |p| == MAX_SHRLC && UsedSlots(psl, x)
    requires h in FreeSlots(psl) && s in FreeSlots(psl) && t in FreeSlots(psl)
    requires forall r :: 0 <= r < |p| && r != h && r != s && r != t ==> p[r] == psl[r]
    requires p[h].pagec != 0 && p[s].pagec != 0 && p[t].pagec != 0
    ensures UsedSlots(p, Started(x, f, a, b, h, s, t)) && FreeSlots(p) == FreeSlots(psl) - {h, s, t}
  {
    hide UsedSlots;
    UsedAfter(psl, x, p, Started(x, f, a, b, h, s, t), {h, s, t}, {});
  }

  lemma FreeUnheld(psl: seq<Slot>, x: Index, s: nat)
    requires |psl| == MAX_SHRLC && UsedSlots(psl, x) && s in FreeSlots(psl)
    ensures 1 <= s < LINKS && psl[s].pagec == 0 && s !in x.holder
  {
  }

  lemma StartChain(psl: seq<Slot>, f: nat, a: Loc, b: Loc, h: nat, s: nat, t: nat)
    requires |psl| == MAX_SHRLC && f != 0 && a.table != 0 && b.table != 0 && a.table != b.table
    requires 1 <= h < LINKS && 1 <= s < LINKS && 1 <= t < LINKS && h != s && h != t && s != t
    ensures var p := StartSlots(psl, f, a, b, h, s, t);
      && ChainOk(p, f, h, [s, t], [a, b])
      && |p| == |psl| && (forall r :: 0 <= r < |p| && r != h && r != s && r != t ==> p[r] == psl[r])
      && p[h].pagec != 0 && p[s].pagec != 0 && p[t].pagec != 0
  {
  }

  lemma StartApart(x: Index, f: nat, a: Loc, b: Loc, h: nat, s: nat, t: nat)
    requires Apart(x.groups) && f !in x.groups
    requires a.table != f && b.table != f && a.table !in x.groups && b.table !in x.groups
    requires forall g :: g in x.groups ==> NotSharing(f, x.groups[g])
    ensures Apart(Started(x, f, a, b, h, s, t).groups)
  {
    var gs := Started(x, f, a, b, h, s, t).groups;
    forall e, d | e in gs && d in gs
      ensures NotSharing(e, gs[d])
    {
      if d != f { assert NotSharing(e, x.groups[d]); }
    }
  }

  lemma StartHolders(x: Index, f: nat, a: Loc, b: Loc, h: nat, s: nat, t: nat)
    requires x.groups.Keys == x.head.Keys == x.members.Keys
    requires Holders(x) && f !in x.groups && h !in x.holder && s !in x.holder && t !in x.holder
    ensures Holders(Started(x, f, a, b, h, s, t))
  {
    var y := Started(x, f, a, b, h, s, t);
    assert y.members[f] == [s, t] && s == y.members[f][0] && t == y.members[f][1];
  }

  function Dropped(x: Index, f: nat, k: nat): Index
    requires f in x.groups && f in x.members && k < |x.groups[f]| == |x.members[f]|
  {
    x.(groups := x.groups[f := RemoveAt(x.groups[f], k)],
       members := x.members[f := RemoveAt(x.members[f], k)],
       holder := x.holder - {x.members[f][k]})
  }

  /** Unchaining member `k` of a chain that stays shared. */
  lemma DropKeepsWf(psl: seq<Slot>, x: Index, f: nat, k: nat)
    requires Wf(psl, x) && f in x.groups && k < |x.groups[f]| && |x.groups[f]| > 2
    ensures ChainOk(psl, f, x.head[f], x.members[f], x.groups[f])
    ensures var p := DropSlots(psl, x.head[f], |x.groups[f]| - 1,
                               if k == 0 then x.head[f] else x.members[f][k - 1], x.members[f][k]);
      Wf(p, Dropped(x, f, k)) && FreeSlots(p) == FreeSlots(psl) + {x.members[f][k]}
  {
    hide Chains, Holders, UsedSlots, Apart, ChainOk, FreeSlots, DropSlots, RemoveAt;
    ChainFacts(psl, x, f);
    DropHolders(x, f, k);
    DropApart(x, f, k);
    var h, m, g := x.head[f], x.members[f], x.groups[f];
    var before := if k == 0 then h else m[k - 1];
    var p, y := DropSlots(psl, h, |g| - 1, before, m[k]), Dropped(x, f, k);
    DropChain(psl, f, h, m, g, k);
    DropFrame(psl, h, |g| - 1, before, m[k]);
    assert Chains(p, y) by { ChainsAfter(psl, x, f, p, y); }
    UsedAfter(psl, x, p, y, {}, {m[k]});
  }

  lemma DropApart(x: Index, f: nat, k: nat)
    requires f in x.groups && f in x.members && k < |x.groups[f]| == |x.members[f]| && Apart(x.groups)
    ensures Apart(Dropped(x, f, k).groups)
  {
    var gs := Dropped(x, f, k).groups;
    forall e, d | e in gs && d in gs
      ensures NotSharing(e, gs[d])
    {
      assert NotSharing(e, x.groups[d]);
    }
  }

  lemma DropHolders(x: Index, f: nat, k: nat)
    requires x.groups.Keys == x.head.Keys == x.members.Keys
    requires Holders(x) && f in x.groups && k < |x.groups[f]| == |x.members[f]|
    requires x.head[f] !in x.members[f]
    requires forall i, j :: 0 <= i < j < |x.members[f]| ==> x.members[f][i] != x.members[f][j]
    ensures Holders(Dropped(x, f, k))
  {
    var m, y := x.members[f], Dropped(x, f, k);
    forall i | 0 <= i < |y.members[f]|
      ensures y.members[f][i] == m[if i < k then i else i + 1] && y.members[f][i] != m[k]
    {
    }
    forall s | s in y.holder
      ensures s == y.head[y.holder[s]] || s in y.members[y.holder[s]]
    {
      if y.holder[s] == f && s != x.head[f] {
        var i :| 0 <= i < |m| && m[i] == s;
        assert y.members[f][if i < k then i else i - 1] == s;
      }
    }
  }

  function Ended(x: Index, f: nat): Index
    requires f in x.head && f in x.members && |x.members[f]| == 2
  {
    Index(x.groups - {f}, x.head - {f}, x.members - {f},
          x.holder - {x.head[f], x.members[f][0], x.members[f][1]})
  }

  /** The array after the three slots of a chain of two were given back. */
  function EndSlots(psl: seq<Slot>, h: nat, s: nat, t: nat): seq<Slot>
    requires |psl| == MAX_SHRLC && h < |psl| && s < |psl| && t < |psl|
  {
    var p := psl[t := psl[t].(pagec := 0)];
    var q := p[s := p[s].(pagec := 0)];
    q[h := q[h].(pagec := 0)]
  }

  lemma EndKeepsWf(psl: seq<Slot>, x: Index, f: nat)
    requires Wf(psl, x) && f in x.groups && |x.groups[f]| == 2
    ensures ChainOk(psl, f, x.head[f], x.members[f], x.groups[f])
    ensures var h, s, t := x.head[f], x.members[f][0], x.members[f][1];
      Wf(EndSlots(psl, h, s, t), Ended(x, f)) && FreeSlots(EndSlots(psl, h, s, t)) == FreeSlots(psl) + {h, s, t}
  {
    hide Chains, Holders, UsedSlots, Apart, ChainOk, FreeSlots, EndSlots;
    ChainFacts(psl, x, f);
    EndHolders(x, f);
    EndApart(x, f);
    var h, m := x.head[f], x.members[f];
    var p, y := EndSlots(psl, h, m[0], m[1]), Ended(x, f);
    EndChain(psl, h, m[0], m[1]);
    ChainsAfter(psl, x, f, p, y);
    UsedAfter(psl, x, p, y, {}, {h, m[0], m[1]});
  }

  lemma EndChain(psl: seq<Slot>, h: nat, s: nat, t: nat)
    requires |psl| == MAX_SHRLC && h < |psl| && s < |psl| && t < |psl| && h != s && h != t && s != t
    ensures var p := EndSlots(psl, h, s, t);
      && |p| == |psl| && (forall r :: 0 <= r < |p| && r != h && r != s && r != t ==> p[r] == psl[r])
      && p[h].pagec == p[s].pagec == p[t].pagec == 0
  {
  }

  lemma EndApart(x: Index, f: nat)
    requires f in x.groups && f in x.head && f in x.members && |x.members[f]| == 2 && Apart(x.groups)
    ensures Apart(Ended(x, f).groups)
  {
  }

  lemma EndHolders(x: Index, f: nat)
    requires x.groups.Keys == x.head.Keys == x.members.Keys
    requires Holders(x) && f in x.groups && |x.members[f]| == 2
    ensures Holders(Ended(x, f))
  {
    var m, y := x.members[f], Ended(x, f);
    assert m == [m[0], m[1]];
  }

  // ---- what the searches of the source rely on

  /** Only the header of a shared frame carries that frame's number. */
  lemma OnlyHeaderNamesFrame(psl: seq<Slot>, x: Index, f: nat, s: nat)
    requires Wf(psl, x) && f in x.groups && 1 <= s < MAX_SHRLC
    ensures psl[s].pagec == f <==> s == x.head[f]
  {
    assert ChainOk(psl, f, x.head[f], x.members[f], x.groups[f]);
    if s in x.holder {
      var e := x.holder[s];
      assert ChainOk(psl, e, x.head[e], x.members[e], x.groups[e]);
      assert NotSharing(f, x.groups[e]);
    }
  }
}
