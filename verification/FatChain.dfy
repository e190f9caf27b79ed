/** kernel/fat.c: chains of clusters, and walking them forward and backward. */
module FatChain {
  import opened Basics
  import opened FatEntries
  import opened FatTable
  import opened FatCache

  /** A cluster of the table whose entry is read in its place. */
  predicate Readable(g: Geometry, c: nat)
    requires g.Valid()
  {
    g.Holds(c) && ReadsRight(g, c)
  }

  /** A file's clusters in order, up to an end mark. */
  ghost predicate Chain(g: Geometry, t: seq<nat>, ch: seq<nat>)
    requires g.Valid()
  {
    && |t| == g.Count() && |ch| > 0
    && (forall i :: 0 <= i < |ch| ==> Readable(g, ch[i]) && ch[i] <= g.MaxClus())
    && (forall i, j :: 0 <= i < j < |ch| ==> ch[i] != ch[j])
    && (forall i, j :: 0 <= i < |ch| && 0 <= j < |ch| && j == i + 1 ==> t[ch[i]] == ch[j])
    && t[ch[|ch| - 1]] >= g.Beoc()
  }

  lemma LinkFacts(g: Geometry, t: seq<nat>, ch: seq<nat>, i: nat)
    requires g.Valid() && Chain(g, t, ch) && i < |ch|
    ensures Readable(g, ch[i]) && 2 <= ch[i] <= g.MaxClus() && ch[i] < |t| && g.Holds(ch[i])
    ensures if i + 1 < |ch| then t[ch[i]] == ch[i + 1] && 2 <= ch[i + 1] < g.Beoc() else t[ch[i]] >= g.Beoc()
  {
  }

  /** Changing an entry off the chain leaves the chain. */
  lemma ChainElsewhere(g: Geometry, t: seq<nat>, t': seq<nat>, ch: seq<nat>)
    requires g.Valid() && Chain(g, t, ch) && |t'| == |t| && forall c :: c in ch && c < |t| ==> t'[c] == t[c]
    ensures Chain(g, t', ch)
  {
    forall i | 0 <= i < |ch|
      ensures t'[ch[i]] == t[ch[i]]
    {
      assert ch[i] in ch && Readable(g, ch[i]);
    }
  }

  lemma ChainRest(g: Geometry, t: seq<nat>, ch: seq<nat>, v: nat, k: nat)
    requires g.Valid() && Chain(g, t, ch) && k + 1 < |ch|
    ensures Chain(g, t[ch[k] := v], ch[k + 1..])
  {
    var r := ch[k + 1..];
    assert Chain(g, t, r) by {
      forall i, j | 0 <= i < |r| && 0 <= j < |r| && j == i + 1
        ensures t[r[i]] == r[j]
      {
        assert r[i] == ch[k + 1 + i] && r[j] == ch[k + 1 + j];
      }
    }
    ChainElsewhere(g, t, t[ch[k] := v], r);
  }

  // ---- seeking

  /** No two entries lead to the same cluster. */
  ghost predicate OnePredecessor(g: Geometry, t: seq<nat>) {
    forall a, b | 2 <= a < |t| && 2 <= b < |t| && a <= g.MaxClus() && b <= g.MaxClus() ::
      t[a] == t[b] && 2 <= t[a] <= g.MaxClus() ==> a == b
  }

  /** Files with disjoint chains, and no link outside of them. */
  ghost predicate Files(g: Geometry, t: seq<nat>, chains: seq<seq<nat>>)
    requires g.Valid()
  {
    && |t| == g.Count()
    && (forall f :: 0 <= f < |chains| ==> Chain(g, t, chains[f]))
    && (forall f, h, c :: 0 <= f < |chains| && 0 <= h < |chains| && c in chains[f] && c in chains[h] ==> f == h)
    && (forall c :: 2 <= c < |t| && c <= g.MaxClus() && 2 <= t[c] <= g.MaxClus() ==> exists f :: 0 <= f < |chains| && c in chains[f])
  }

  lemma LinkInside(g: Geometry, t: seq<nat>, ch: seq<nat>, c: nat) returns (i: nat)
    requires g.Valid() && Chain(g, t, ch) && c in ch && c < |t| && t[c] <= g.MaxClus()
    ensures i + 1 < |ch| && ch[i] == c && ch[i + 1] == t[c]
  {
    i :| 0 <= i < |ch| && ch[i] == c;
  }

  lemma FilesHaveOnePredecessor(g: Geometry, t: seq<nat>, chains: seq<seq<nat>>)
    requires g.Valid() && Files(g, t, chains)
    ensures OnePredecessor(g, t)
  {
    hide Chain;
    forall a, b | 2 <= a < |t| && 2 <= b < |t| && a <= g.MaxClus() && b <= g.MaxClus() && t[a] == t[b] && 2 <= t[a] <= g.MaxClus()
      ensures a == b
    {
      var f :| 0 <= f < |chains| && a in chains[f];
      var h :| 0 <= h < |chains| && b in chains[h];
      var i := LinkInside(g, t, chains[f], a);
      var j := LinkInside(g, t, chains[h], b);
      assert t[a] in chains[f] && t[b] in chains[h];
      DistinctIn(g, t, chains[f], i + 1, j + 1);
    }
  }

  lemma DistinctIn(g: Geometry, t: seq<nat>, ch: seq<nat>, i: nat, j: nat)
    requires g.Valid() && Chain(g, t, ch) && i < |ch| && j < |ch| && ch[i] == ch[j]
    ensures i == j
  {
  }

  method Next(fat: Fat, c: nat) returns (r: nat)
    requires fat.Valid() && (c < 2 || c >= fat.g.Beoc() || Readable(fat.g, c))
    modifies fat`lastAccess, fat.buffer
    ensures fat.Valid() && r == if fat.g.Holds(c) then Table(fat.g, fat.disk[..])[c] else fat.g.Eoc()
  {
    hide Seen, Table, Entry, CanRead;
    if fat.g.Holds(c) {
      SeenIsEntry(fat.g, fat.disk[..], c);
      TableAt(fat.g, fat.disk[..], c);
    }
    r := fat.GetNextClus(c);
  }

  lemma TableAt(g: Geometry, d: Disk, c: nat)
    requires g.Valid() && DiskOk(g, d) && c < g.Count()
    ensures |Table(g, d)| == g.Count() && Table(g, d)[c] == Entry(g, d, c)
  {
  }

  /** Cluster `n` is found to lead to `clus`. */
  ghost predicate LeadsTo(g: Geometry, d: Disk, n: nat, clus: nat)
    requires g.Valid() && DiskOk(g, d)
  {
    CanRead(g, d, n) && Seen(g, d, n) == clus
  }

  /** The first cluster from `n` on that leads to `clus`, or the end mark. */
  ghost function Before(g: Geometry, d: Disk, clus: nat, n: nat): nat
    requires g.Valid() && DiskOk(g, d)
    decreases g.MaxClus() + 1 - n
  {
    if n > g.MaxClus() then g.Eoc() else if LeadsTo(g, d, n, clus) then n else Before(g, d, clus, n + 1)
  }

  /** The search for it stays on the disk. */
  ghost predicate CanScan(g: Geometry, d: Disk, clus: nat)
    requires g.Valid() && DiskOk(g, d)
  {
    forall n: nat :: 2 <= n <= g.MaxClus() && n <= Before(g, d, clus, 2) ==> CanRead(g, d, n)
  }

  lemma {:induction false} BeforeIs(g: Geometry, d: Disk, clus: nat, n: nat)
    requires g.Valid() && DiskOk(g, d)
    ensures var r, max := Before(g, d, clus, n), if g.ft == 32 then 0xFFFFFEF else if g.ft == 16 then 0xFFEF else 0xFEF;
      && (r == max + 0x10 || (n <= r <= max && LeadsTo(g, d, r, clus)))
      && (forall m: nat :: n <= m <= max && m < r ==> !LeadsTo(g, d, m, clus))
    decreases g.MaxClus() + 1 - n
  {
    hide LeadsTo;
    if n <= g.MaxClus() && !LeadsTo(g, d, n, clus) { BeforeIs(g, d, clus, n + 1); }
  }

  /** kernel/fat.c `getpreclus`: the first cluster of all that leads to `clus`, or the end
      mark if there is none. */
  method GetPreClus(fat: Fat, clus: nat) returns (r: nat)
    requires fat.Valid() && CanScan(fat.g, fat.disk[..], clus)
    modifies fat`lastAccess, fat.buffer
    ensures fat.Valid() && r == Before(fat.g, fat.disk[..], clus, 2)
  {
    hide CanRead, Seen;
    var g := fat.g;
    var n := 2;
    BeforeIs(g, fat.disk[..], clus, 2);
    while n <= g.MaxClus()
      invariant fat.Valid() && 2 <= n <= g.MaxClus() + 1
      invariant Before(g, fat.disk[..], clus, n) == Before(g, fat.disk[..], clus, 2)
    {
      BeforeIs(g, fat.disk[..], clus, n);
      var m := fat.GetNextClus(n);
      if m == clus {
        return n;
      }
      n := n + 1;
    }
    r := g.Eoc();
  }

  /** No cluster of the table below `p` is misread. */
  ghost predicate ScansRight(g: Geometry, p: nat)
    requires g.Valid()
  {
    forall n: nat :: g.Holds(n) && n < p ==> ReadsRight(g, n)
  }

  /** The scans that a seek from cluster `from` of a file back to cluster `to` makes. */
  ghost predicate SeekScans(g: Geometry, ch: seq<nat>, from: nat, to: int)
    requires g.Valid()
  {
    forall j :: 0 <= j < from && to <= j && j < |ch| ==> ScansRight(g, ch[j])
  }

  /** In a file the search finds the cluster before, if it misreads none on the way there. */
  lemma BeforeInChain(g: Geometry, d: Disk, ch: seq<nat>, k: nat)
    requires g.Valid() && DiskOk(g, d) && Chain(g, Table(g, d), ch) && OnePredecessor(g, Table(g, d)) && 0 < k < |ch|
    requires ScansRight(g, ch[k - 1])
    ensures CanScan(g, d, ch[k]) && Before(g, d, ch[k], 2) == ch[k - 1]
  {
    hide Chain, Seen, Entry, CanRead, OnePredecessor;
    var p, c, t := ch[k - 1], ch[k], Table(g, d);
    LinkFacts(g, t, ch, k - 1);
    LinkFacts(g, t, ch, k);
    BeforeIs(g, d, c, 2);
    SeenIsEntry(g, d, p);
    TableAt(g, d, p);
    var r := Before(g, d, c, 2);
    assert LeadsTo(g, d, p, c);
    SeenIsEntry(g, d, r);
    TableAt(g, d, r);
    Predecessor(g, t, r, p);
    forall n: nat | 2 <= n <= r
      ensures CanRead(g, d, n)
    {
      HeldOnDisk(g, d, n);
    }
  }

  lemma Predecessor(g: Geometry, t: seq<nat>, a: nat, b: nat)
    requires g.Valid() && OnePredecessor(g, t) && 2 <= a <= b < |t| && b <= g.MaxClus() && t[a] == t[b] && 2 <= t[a] <= g.MaxClus()
    ensures a == b
  {
  }

  /** The cluster at index `i` of a file; at -1 it is what the search answers for the first one. */
  ghost function ClusterAt(g: Geometry, d: Disk, ch: seq<nat>, i: int): nat
    requires g.Valid() && DiskOk(g, d) && -1 <= i < |ch| && |ch| > 0
  {
    if i == -1 then Before(g, d, ch[0], 2) else ch[i]
  }

  /** kernel/fat.c `Fat_seek` from cluster `k` of a file: cluster `k + offset`, in either
      direction; None is the case in which the file would have to grow. */
  method FatSeek(fat: Fat, clus: nat, offset: int, ghost ch: seq<nat>, ghost k: nat) returns (r: Option<nat>)
    requires fat.Valid() && Chain(fat.g, Table(fat.g, fat.disk[..]), ch)
    requires k < |ch| && ch[k] == clus && -1 <= k + offset
    requires offset < 0 ==> OnePredecessor(fat.g, Table(fat.g, fat.disk[..])) && SeekScans(fat.g, ch, k, k + offset)
    requires k + offset == -1 ==> CanScan(fat.g, fat.disk[..], ch[0])
    modifies fat`lastAccess, fat.buffer
    ensures fat.Valid() && r == if k + offset < |ch| then Some(ClusterAt(fat.g, fat.disk[..], ch, k + offset)) else None
  {
    hide Chain, OnePredecessor, Readable, ScansRight, Table, Before, CanScan;
    var g := fat.g;
    ghost var t := Table(g, fat.disk[..]);
    var c := clus;
    var i := 0;
    if offset > 0 {
      while i < offset
        invariant 0 <= i <= offset && fat.Valid() && k + i < |ch| && c == ch[k + i]
      {
        LinkFacts(g, t, ch, k + i);
        var tmp := Next(fat, c);
        if tmp >= g.Beoc() {
          return None;
        }
        c := tmp;
        i := i + 1;
      }
    }
    if offset < 0 {
      while i < -offset
        invariant 0 <= i <= -offset && fat.Valid() && c == ClusterAt(g, fat.disk[..], ch, k - i)
      {
        if k - i > 0 { BeforeInChain(g, fat.disk[..], ch, k - i); }
        c := GetPreClus(fat, c);
        i := i + 1;
      }
    }
    r := Some(c);
  }

  /** What index -1 stands for is not the first cluster. */
  lemma BeforeFirst(g: Geometry, d: Disk, ch: seq<nat>)
    requires g.Valid() && DiskOk(g, d) && Chain(g, Table(g, d), ch)
    ensures |ch| > 0 && Before(g, d, ch[0], 2) != ch[0] && Before(g, d, ch[0], 2) >= 2
  {
    hide Seen, Entry, Chain, CanRead, Table;
    FirstLink(g, Table(g, d), ch);
    BeforeIs(g, d, ch[0], 2);
    SeenIsEntry(g, d, ch[0]);
    TableAt(g, d, ch[0]);
  }

  lemma FirstLink(g: Geometry, t: seq<nat>, ch: seq<nat>)
    requires g.Valid() && Chain(g, t, ch)
    ensures |ch| > 0 && Readable(g, ch[0]) && ch[0] <= g.MaxClus() && ch[0] < |t| && t[ch[0]] != ch[0]
  {
    LinkFacts(g, t, ch, 0);
  }

  /** Seeking forward and back by the same distance ends where it began. */
  method SeekThereAndBack(fat: Fat, clus: nat, d: int, ghost ch: seq<nat>, ghost k: nat) returns (there: Option<nat>, back: Option<nat>)
    requires fat.Valid() && Chain(fat.g, Table(fat.g, fat.disk[..]), ch) && OnePredecessor(fat.g, Table(fat.g, fat.disk[..]))
    requires 0 <= k <= k + d < |ch| && ch[k] == clus && SeekScans(fat.g, ch, k + d, k)
    modifies fat`lastAccess, fat.buffer
    ensures fat.Valid() && there == Some(ch[k + d]) && back == Some(clus)
  {
    hide Chain, OnePredecessor, Table, ScansRight, CanScan, Before;
    there := FatSeek(fat, clus, d, ch, k);
    back := FatSeek(fat, there.value, -d, ch, k + d);
  }
}
