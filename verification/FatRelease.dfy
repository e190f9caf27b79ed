/** kernel/fat.c `releaseclus`: its loop on the sectors of the disk, and what it does to files. */
module FatRelease {
  import opened FatEntries
  import opened FatTable
  import opened FatWrite
  import opened FatCache
  import opened FatChain

  // ---- the loop, pass by pass

  /** The loop ends after exactly `n` passes from cluster `c`, all of them on the disk. */
  ghost predicate EndsIn(g: Geometry, d: Disk, c: nat, n: nat)
    requires g.Valid() && DiskOk(g, d)
    decreases n
  {
    if c > g.MaxClus() then n == 0
    else if c < 2 then n == 1
    else n > 0 && OnDisk(g, d, c) && EndsIn(g, After(g, d, c, 0), Seen(g, d, c), n - 1)
  }

  ghost predicate Ends(g: Geometry, d: Disk, c: nat)
    requires g.Valid() && DiskOk(g, d)
  {
    exists n :: EndsIn(g, d, c, n)
  }

  /** The disk then. */
  ghost function Swept(g: Geometry, d: Disk, c: nat, n: nat): (r: Disk)
    requires g.Valid() && DiskOk(g, d) && EndsIn(g, d, c, n)
    ensures DiskOk(g, r) && |r| == |d|
    decreases n
  {
    if c < 2 || c > g.MaxClus() then d else Swept(g, After(g, d, c, 0), Seen(g, d, c), n - 1)
  }

  lemma {:induction false} EndsOnce(g: Geometry, d: Disk, c: nat, n: nat, n': nat)
    requires g.Valid() && DiskOk(g, d) && EndsIn(g, d, c, n) && EndsIn(g, d, c, n')
    ensures n == n'
    decreases n
  {
    hide After, Seen, CanRead, CanWrite;
    if 2 <= c <= g.MaxClus() { EndsOnce(g, After(g, d, c, 0), Seen(g, d, c), n - 1, n' - 1); }
  }

  /** What the first cluster's entry becomes. */
  function Mark(g: Geometry, flag: bool): nat { if flag then 0 else g.Eoc() }

  /** `releaseclus` comes to an end. */
  ghost predicate ReleaseEnds(g: Geometry, d: Disk, clus: nat, flag: bool)
    requires g.Valid() && DiskOk(g, d)
  {
    OnDisk(g, d, clus) && Ends(g, After(g, d, clus, Mark(g, flag)), Seen(g, d, clus))
  }

  ghost function Released(g: Geometry, d: Disk, clus: nat, flag: bool): (r: Disk)
    requires g.Valid() && DiskOk(g, d) && ReleaseEnds(g, d, clus, flag)
    ensures DiskOk(g, r) && |r| == |d|
  {
    var d1 := After(g, d, clus, Mark(g, flag));
    var n :| EndsIn(g, d1, Seen(g, d, clus), n);
    Swept(g, d1, Seen(g, d, clus), n)
  }

  lemma ReleasedIs(g: Geometry, d: Disk, clus: nat, flag: bool, n: nat)
    requires g.Valid() && DiskOk(g, d) && OnDisk(g, d, clus)
    requires EndsIn(g, After(g, d, clus, Mark(g, flag)), Seen(g, d, clus), n)
    ensures ReleaseEnds(g, d, clus, flag)
    ensures Released(g, d, clus, flag) == Swept(g, After(g, d, clus, Mark(g, flag)), Seen(g, d, clus), n)
  {
    hide After, Seen, EndsIn, CanRead, CanWrite;
    var d1 := After(g, d, clus, Mark(g, flag));
    forall m | EndsIn(g, d1, Seen(g, d, clus), m)
      ensures m == n
    {
      EndsOnce(g, d1, Seen(g, d, clus), m, n);
    }
  }

  /** kernel/fat.c `releaseclus`, wherever it ends. */
  method ReleaseClus(fat: Fat, clus: nat, flag: bool) returns (ret: int)
    requires fat.Valid() && (2 <= clus < fat.g.Beoc() ==> ReleaseEnds(fat.g, fat.disk[..], clus, flag))
    modifies fat`lastAccess, fat.buffer, fat.disk
    ensures fat.Valid() && ret == if 2 <= clus < fat.g.Beoc() then 0 else -1
    ensures fat.disk[..] == if ret == 0 then Released(fat.g, old(fat.disk[..]), clus, flag) else old(fat.disk[..])
  {
    hide After, Seen, CanRead, CanWrite, Table, Released, EndsIn, Swept;
    var g := fat.g;
    if clus < 2 || clus >= g.Beoc() {
      return -1;
    }
    ghost var d := fat.disk[..];
    ghost var n :| EndsIn(g, After(g, d, clus, Mark(g, flag)), Seen(g, d, clus), n);
    ReleasedIs(g, d, clus, flag, n);
    var tmp := fat.GetNextClus(clus);
    var done := fat.WriteNextClus(clus, if flag then 0 else g.Eoc());
    var c := tmp;
    EndFacts(g, fat.disk[..], c, n);
    while c <= g.MaxClus()
      invariant fat.Valid() && tmp == c && EndsIn(g, fat.disk[..], c, n)
      invariant Swept(g, fat.disk[..], c, n) == Released(g, d, clus, flag)
      decreases n
    {
      EndFacts(g, fat.disk[..], c, n);
      tmp := fat.GetNextClus(tmp);
      done := fat.WriteNextClus(c, 0);
      c := tmp;
      n := n - 1;
    }
    EndFacts(g, fat.disk[..], c, n);
    ret := 0;
  }

  lemma EndFacts(g: Geometry, d: Disk, c: nat, n: nat)
    requires g.Valid() && DiskOk(g, d) && EndsIn(g, d, c, n)
    ensures c > g.MaxClus() ==> Swept(g, d, c, n) == d
    ensures c <= g.MaxClus() ==> n > 0
    ensures c < 2 ==> EndsIn(g, d, g.Eoc(), n - 1) && Swept(g, d, g.Eoc(), n - 1) == Swept(g, d, c, n)
    ensures 2 <= c <= g.MaxClus() ==>
      && OnDisk(g, d, c) && EndsIn(g, After(g, d, c, 0), Seen(g, d, c), n - 1)
      && Swept(g, After(g, d, c, 0), Seen(g, d, c), n - 1) == Swept(g, d, c, n)
  {
    hide After, Seen, CanRead, CanWrite;
  }

  // ---- releasing the tail of a file

  /** Free clusters below `n`. */
  function Free(t: seq<nat>, n: nat): nat
    requires n <= |t|
  {
    if n <= 2 then 0 else Free(t, n - 1) + if t[n - 1] == 0 then 1 else 0
  }

  lemma {:induction false} FreeAfter(t: seq<nat>, n: nat, c: nat, v: nat)
    requires n <= |t| && 2 <= c < |t|
    ensures Free(t[c := v], n) == Free(t, n) + if c < n then (if v == 0 then 1 else 0) - (if t[c] == 0 then 1 else 0) else 0
  {
    if n > 2 { FreeAfter(t, n - 1, c, v); }
  }

  ghost function Cleared(t: seq<nat>, ch: seq<nat>): (r: seq<nat>)
    ensures |r| == |t| && forall c :: 0 <= c < |t| ==> r[c] == if c in ch then 0 else t[c]
  {
    seq(|t|, c requires 0 <= c < |t| => if c in ch then 0 else t[c])
  }

  lemma ClearedMore(t: seq<nat>, ch: seq<nat>)
    requires |ch| > 0 && ch[0] < |t|
    ensures Cleared(t[ch[0] := 0], ch[1..]) == Cleared(t, ch)
  {
    assert ch == [ch[0]] + ch[1..];
  }

  /** Nothing but the two copies of the table changed, and they still agree. */
  ghost predicate OnlyTable(g: Geometry, d: Disk, d': Disk)
    requires g.Valid() && DiskOk(g, d) && DiskOk(g, d')
  {
    && |d'| == |d|
    && (forall s :: 0 <= s < |d| && !(g.rsvd <= s < g.rsvd + 2 * g.fatSz) ==> d'[s] == d[s])
    && (Mirrored(g, d) ==> Mirrored(g, d'))
  }

  lemma RestOnly(g: Geometry, d: Disk, d': Disk, c: nat)
    requires g.Valid() && DiskOk(g, d) && DiskOk(g, d') && c < g.Count() && Rest(g, d, d', c)
    ensures OnlyTable(g, d, d')
  {
    hide Mirrored, Touched;
    forall s | 0 <= s < |d| && !(g.rsvd <= s < g.rsvd + 2 * g.fatSz)
      ensures d'[s] == d[s]
    {
      TouchedInside(g, c, s);
      TouchedInside(g, c, s - g.fatSz);
    }
  }

  lemma TouchedInside(g: Geometry, c: nat, s: int)
    requires g.Valid() && c < g.Count()
    ensures Touched(g, c, s) ==> g.rsvd <= s < g.rsvd + g.fatSz
  {
    InTable(g, c);
  }

  lemma OnlyBoth(g: Geometry, d: Disk, d': Disk, d'': Disk)
    requires g.Valid() && DiskOk(g, d) && DiskOk(g, d') && DiskOk(g, d'') && OnlyTable(g, d, d') && OnlyTable(g, d', d'')
    ensures OnlyTable(g, d, d'')
  {
  }

  /** A file's clusters that can be given back: clearing their entries is a right write. */
  ghost predicate Clearable(g: Geometry, ch: seq<nat>)
    requires g.Valid()
  {
    forall i :: 0 <= i < |ch| ==> WriteRight(g, ch[i], 0)
  }

  lemma ClearableRest(g: Geometry, ch: seq<nat>)
    requires g.Valid() && Clearable(g, ch) && |ch| > 0
    ensures WriteRight(g, ch[0], 0) && Clearable(g, ch[1..])
  {
  }

  /** One cluster of a file is released: the pass is on the disk, changes its entry alone and
      goes on with the next one. */
  lemma OnePass(g: Geometry, d: Disk, ch: seq<nat>, k: nat, v: nat)
    requires g.Valid() && DiskOk(g, d) && Chain(g, Table(g, d), ch) && k < |ch| && WriteRight(g, ch[k], v) && v <= g.Eoc()
    ensures OnDisk(g, d, ch[k]) && |Table(g, d)| == g.Count() && ch[k] < g.Count() && 2 <= ch[k] <= g.MaxClus()
    ensures Seen(g, d, ch[k]) == Table(g, d)[ch[k]]
    ensures var d' := After(g, d, ch[k], v);
      Table(g, d') == Table(g, d)[ch[k] := v] && OnlyTable(g, d, d')
  {
    hide Chain, After, Seen, Entry, OnlyTable, Rest, Table;
    var c := ch[k];
    LinkFacts(g, Table(g, d), ch, k);
    CanClear(g, d, c, v);
    SeenIsEntry(g, d, c);
    TableAt(g, d, c);
    AfterTable(g, d, c, v);
    RestOnly(g, d, After(g, d, c, v), c);
  }

  lemma CanClear(g: Geometry, d: Disk, c: nat, v: nat)
    requires g.Valid() && DiskOk(g, d) && g.Holds(c) && WriteRight(g, c, v)
    ensures OnDisk(g, d, c)
  {
    HeldOnDisk(g, d, c);
    EntryInSector(g, c);
  }

  /** Releasing a whole chain clears its entries and no other. */
  lemma {:induction false} RestOfChain(g: Geometry, d: Disk, ch: seq<nat>)
    requires g.Valid() && DiskOk(g, d) && Chain(g, Table(g, d), ch) && Clearable(g, ch)
    ensures EndsIn(g, d, ch[0], |ch|)
    ensures var d' := Swept(g, d, ch[0], |ch|);
      Table(g, d') == Cleared(Table(g, d), ch) && OnlyTable(g, d, d')
    ensures Free(Cleared(Table(g, d), ch), g.Count()) == Free(Table(g, d), g.Count()) + |ch|
    decreases |ch|
  {
    hide Chain, After, Seen, CanRead, CanWrite, OnlyTable, Table, WriteRight, EndsIn, Swept, Free, Cleared, Clearable;
    hide Readable, Geometry.Valid, Geometry.Count, Geometry.Holds, Geometry.Beoc, Geometry.MaxClus;
    var t := Table(g, d);
    NotEmpty(g, t, ch);
    ClearableRest(g, ch);
    var c := ch[0];
    LinkFacts(g, t, ch, 0);
    OnePass(g, d, ch, 0, 0);
    FreeAfter(t, |t|, c, 0);
    ClearedMore(t, ch);
    var d' := After(g, d, c, 0);
    if |ch| == 1 {
      EndsNow(g, d', t[c]);
      PassBefore(g, d, c, 0);
      assert Cleared(t, ch) == t[c := 0];
    } else {
      ChainRest(g, t, ch, 0, 0);
      RestOfChain(g, d', ch[1..]);
      PassBefore(g, d, c, |ch| - 1);
      OnlyBoth(g, d, d', Swept(g, d', ch[1], |ch| - 1));
    }
  }

  lemma PassBefore(g: Geometry, d: Disk, c: nat, n: nat)
    requires g.Valid() && DiskOk(g, d) && 2 <= c <= g.MaxClus() && OnDisk(g, d, c) && EndsIn(g, After(g, d, c, 0), Seen(g, d, c), n)
    ensures EndsIn(g, d, c, n + 1) && Swept(g, d, c, n + 1) == Swept(g, After(g, d, c, 0), Seen(g, d, c), n)
  {
    hide After, Seen, CanRead, CanWrite;
  }

  lemma NotEmpty(g: Geometry, t: seq<nat>, ch: seq<nat>)
    requires g.Valid() && Chain(g, t, ch)
    ensures |ch| > 0 && |t| == g.Count() && t[ch[|ch| - 1]] >= g.Beoc()
  {
  }

  /** The table after the release from cluster `k` of a file on. */
  ghost predicate TailReleased(g: Geometry, t: seq<nat>, r: seq<nat>, ch: seq<nat>, k: nat, flag: bool)
    requires g.Valid() && k < |ch|
  {
    |r| == |t| && forall c :: 0 <= c < |t| ==> r[c] == if c in ch[k + 1..] then 0 else if c == ch[k] then Mark(g, flag) else t[c]
  }

  /** `releaseclus` at cluster `k` of a file, whatever else the table holds: it ends, the
      clusters behind it become free, and it too or it becomes the last one; no other entry
      changes, and nothing but the table. */
  lemma ReleaseFreesTail(g: Geometry, d: Disk, ch: seq<nat>, k: nat, flag: bool)
    requires g.Valid() && DiskOk(g, d) && Chain(g, Table(g, d), ch) && k < |ch|
    requires Clearable(g, ch[k + 1..]) && WriteRight(g, ch[k], Mark(g, flag))
    ensures ReleaseEnds(g, d, ch[k], flag)
    ensures var t, r := Table(g, d), Table(g, Released(g, d, ch[k], flag));
      && OnlyTable(g, d, Released(g, d, ch[k], flag)) && TailReleased(g, t, r, ch, k, flag)
      && Free(r, g.Count()) == Free(t, g.Count()) + (|ch| - k - 1) + (if flag then 1 else 0)
      && (!flag ==> Chain(g, r, ch[..k + 1]))
  {
    hide Chain, After, Seen, CanRead, CanWrite, OnlyTable, Table, WriteRight, Released, EndsIn, Swept, ReleaseEnds, Free, Clearable;
    hide Readable, Geometry.Valid, Geometry.Count, Geometry.Holds, Geometry.Beoc, Geometry.MaxClus;
    var t, c, v := Table(g, d), ch[k], Mark(g, flag);
    NotEmpty(g, t, ch);
    LinkFacts(g, t, ch, k);
    OnePass(g, d, ch, k, v);
    FreeAfter(t, |t|, c, v);
    var d1 := After(g, d, c, v);
    if k + 1 < |ch| {
      ChainRest(g, t, ch, v, k);
      RestOfChain(g, d1, ch[k + 1..]);
      ReleasedIs(g, d, c, flag, |ch| - k - 1);
      OnlyBoth(g, d, d1, Swept(g, d1, ch[k + 1], |ch| - k - 1));
      Distinct(g, t, ch, k);
    } else {
      EndsNow(g, d1, t[c]);
      ReleasedIs(g, d, c, flag, 0);
    }
    if !flag { ShortChain(g, t, ch, k, Table(g, Released(g, d, c, flag))); }
  }

  lemma EndsNow(g: Geometry, d: Disk, c: nat)
    requires g.Valid() && DiskOk(g, d) && c >= g.Beoc()
    ensures EndsIn(g, d, c, 0) && Swept(g, d, c, 0) == d
  {
  }

  lemma Distinct(g: Geometry, t: seq<nat>, ch: seq<nat>, k: nat)
    requires g.Valid() && Chain(g, t, ch) && k < |ch|
    ensures ch[k] !in ch[k + 1..]
  {
  }

  lemma ShortChain(g: Geometry, t: seq<nat>, ch: seq<nat>, k: nat, r: seq<nat>)
    requires g.Valid() && Chain(g, t, ch) && k < |ch| && TailReleased(g, t, r, ch, k, false)
    ensures Chain(g, r, ch[..k + 1])
  {
    var s := ch[..k + 1];
    forall i | 0 <= i < |s|
      ensures s[i] !in ch[k + 1..] && s[i] < |t|
    {
      assert Readable(g, ch[i]);
    }
  }

  /** Any other file keeps its chain. */
  lemma ReleaseSparesOthers(g: Geometry, d: Disk, ch: seq<nat>, k: nat, flag: bool, other: seq<nat>)
    requires g.Valid() && DiskOk(g, d) && Chain(g, Table(g, d), ch) && k < |ch|
    requires Clearable(g, ch[k + 1..]) && WriteRight(g, ch[k], Mark(g, flag))
    requires Chain(g, Table(g, d), other) && forall c :: c in other ==> c !in ch
    ensures ReleaseEnds(g, d, ch[k], flag) && Chain(g, Table(g, Released(g, d, ch[k], flag)), other)
  {
    hide Released, Chain, Table, ReleaseEnds, WriteRight, OnlyTable;
    ReleaseFreesTail(g, d, ch, k, flag);
    var t, r := Table(g, d), Table(g, Released(g, d, ch[k], flag));
    forall c | c in other && c < |t|
      ensures r[c] == t[c]
    {
      assert c !in ch;
    }
    ChainElsewhere(g, t, r, other);
  }
}
