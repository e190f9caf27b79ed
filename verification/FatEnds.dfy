/** kernel/fat.c `releaseclus`: for which links its loop ends, whatever the disk holds. */
module FatEnds {
  import opened FatEntries
  import opened FatTable
  import opened FatWrite
  import opened FatChain
  import opened FatRelease
  import opened FatMeasure

  /** The links in a table that cannot keep the loop going for ever. */
  predicate Tame(g: Geometry, c: nat)
    requires g.Valid()
  {
    if g.ft == 32 then c < WRAP27 else g.Awkward(c) ==> g.rsvd == 1 || (g.rsvd == 10 && c != 3413)
  }

  predicate IsNumber(g: Geometry, v: nat) { 2 <= v <= g.MaxClus() }

  /** In `n` passes from `c` on the loop stays on the disk and meets no clusters but those
      of `met`. */
  ghost predicate Within(g: Geometry, d: Disk, c: nat, met: iset<nat>, n: nat)
    requires g.Valid() && DiskOk(g, d)
    decreases n
  {
    n == 0 || c < 2 || c > g.MaxClus() ||
    (c in met && OnDisk(g, d, c) && Within(g, After(g, d, c, 0), Seen(g, d, c), met, n - 1))
  }

  /** A pass at `c` makes progress below sector `hi`: the entry is read where it is written,
      or, in the table, one of those that lead to an entry that is. */
  predicate Progresses(g: Geometry, c: nat, hi: nat)
    requires g.Valid()
  {
    && Home(g, c) < hi && (g.Straddles(c) ==> Home(g, c) + 1 < hi)
    && (ReadsRight(g, c) || (g.Straddles(c) && Tame(g, c) && g.fatSz > 1 && hi <= Home(g, c) + g.fatSz))
  }

  /** It falls with every pass. */
  ghost function Left(g: Geometry, d: Disk, c: nat, hi: nat): nat
    requires g.Valid() && DiskOk(g, d) && g.rsvd <= hi <= |d|
  {
    if c > g.MaxClus() then 0
    else if c < 2 then 1
    else if ReadsRight(g, c) && CanRead(g, d, c) && Seen(g, d, c) == 0 then 2
    else 3 + 2 * Weight(d, g.rsvd, hi) + if ReadsRight(g, c) then 0 else 1
  }

  /** What `getnextclus` sees of a straddling entry. */
  lemma SeenHalves(g: Geometry, d: Disk, c: nat)
    requires g.Valid() && DiskOk(g, d) && OnDisk(g, d, c) && g.Straddles(c)
    ensures var b, y := d[Home(g, c)][511] as int, d[g.At(c) / SECTOR + 2][0] as int;
      Seen(g, d, c) == if c % 2 == 1 then b / 16 + y * 16 else b + y % 16 * 256
    ensures g.rsvd == 1 ==> g.At(c) / SECTOR + 2 == Home(g, c) + 1
  {
    ReadsHome(g, c);
  }

  /** A link that is a multiple of 16 leads to no straddling entry. */
  lemma SixteensRead(g: Geometry, n: nat)
    requires g.Valid() && g.ft == 12
    ensures ReadsRight(g, 16 * n)
  {
    assert 16 * n * 12 / 8 == 24 * n && 24 * n % 512 != 511;
  }

  lemma Progress(g: Geometry, d: Disk, c: nat, hi: nat)
    requires g.Valid() && DiskOk(g, d) && OnDisk(g, d, c) && c <= g.MaxClus() && Progresses(g, c, hi) && g.rsvd <= hi <= |d|
    ensures Left(g, After(g, d, c, 0), Seen(g, d, c), hi) < Left(g, d, c, hi)
  {
    hide After, Weight, Geometry.Straddles, Geometry.At, Offset, ReadAt;
    var n, d' := Seen(g, d, c), After(g, d, c, 0);
    Places(g, c);
    if ReadsRight(g, c) && n == 0 {
      return;
    }
    if !g.Straddles(c) {
      RegularLowers(g, d, c, hi);
      return;
    }
    hide Seen;
    SeenHalves(g, d, c);
    var b, e := d[Home(g, c)][511] as int, d[Home(g, c) + 1][0] as int;
    if c % 2 == 0 {
      if b != 0 || e % 16 != 0 {
        EvenLowers(g, d, c, hi);
      } else {
        EvenSame(g, d, c, hi);
        SixteensRead(g, d[g.At(c) / SECTOR + 2][0] as int % 16 * 16);
      }
    } else {
      OddPlace(g, c);
      if b / 16 != 0 || e != 0 {
        OddLowers(g, d, c, hi);
      } else {
        OddSame(g, d, c, hi);
        SixteensRead(g, d[g.At(c) / SECTOR + 2][0] as int);
      }
    }
  }

  lemma OddPlace(g: Geometry, c: nat)
    requires g.Valid() && g.Awkward(c) && c <= g.MaxClus() && Tame(g, c)
    ensures OddAtHome(g, c)
  {
  }

  /** The loop ends if every pass makes progress. */
  lemma {:induction false} LoopEnds(g: Geometry, d: Disk, c: nat, met: iset<nat>, hi: nat)
    requires g.Valid() && DiskOk(g, d) && g.rsvd <= hi <= |d| && forall n :: Within(g, d, c, met, n)
    requires forall v :: v in met && v <= g.MaxClus() ==> Progresses(g, v, hi)
    ensures Ends(g, d, c)
    decreases Left(g, d, c, hi)
  {
    hide After, Seen, CanRead, CanWrite, Progresses, Left;
    if c > g.MaxClus() {
      assert EndsIn(g, d, c, 0);
    } else if c < 2 {
      assert EndsIn(g, d, c, 1);
    } else {
      assert Within(g, d, c, met, 1);
      var d', c' := After(g, d, c, 0), Seen(g, d, c);
      forall n: nat ensures Within(g, d', c', met, n) { assert Within(g, d, c, met, n + 1); }
      Progress(g, d, c, hi);
      LoopEnds(g, d', c', met, hi);
      var n: nat :| EndsIn(g, d', c', n);
      assert EndsIn(g, d, c, n + 1);
    }
  }

  /** Wherever the links lead on the disk, behind the table too: as long as the clusters met
      are read right, the loop ends. */
  lemma EndsIfReadRight(g: Geometry, d: Disk, c: nat, met: iset<nat>)
    requires g.Valid() && DiskOk(g, d) && (forall n :: Within(g, d, c, met, n))
    requires forall v :: v in met ==> OnDisk(g, d, v) && ReadsRight(g, v)
    ensures Ends(g, d, c)
  {
    hide Within;
    forall v | v in met && v <= g.MaxClus()
      ensures Progresses(g, v, |d|)
    {
      assert OnDisk(g, d, v);
    }
    LoopEnds(g, d, c, met, |d|);
  }

  /** For links inside the table being tame is enough. */
  lemma EndsIfTame(g: Geometry, d: Disk, c: nat, met: iset<nat>)
    requires g.Valid() && DiskOk(g, d) && (forall n :: Within(g, d, c, met, n))
    requires forall v :: v in met ==> g.Holds(v) && Tame(g, v)
    ensures Ends(g, d, c)
  {
    hide Within;
    forall v | v in met && v <= g.MaxClus()
      ensures Progresses(g, v, g.rsvd + g.fatSz)
    {
      EntryInSector(g, v);
    }
    LoopEnds(g, d, c, met, g.rsvd + g.fatSz);
  }

  // ---- what a caller can see from the table

  /** Every link is a cluster of the table or no cluster. */
  ghost predicate Closed(g: Geometry, t: seq<nat>)
    requires g.Valid()
  {
    |t| == g.Count() && forall c :: 0 <= c < |t| && g.Holds(c) ==> Inside(g, t[c])
  }

  predicate Inside(g: Geometry, c: nat)
    requires g.Valid()
  {
    c < 2 || c > g.MaxClus() || c < g.Count()
  }

  /** Every entry of the table is read and cleared in its place. */
  ghost predicate AllInPlace(g: Geometry)
    requires g.Valid()
  {
    forall c: nat :: g.Holds(c) && c <= g.MaxClus() ==> ReadsRight(g, c) && WriteRight(g, c, 0)
  }

  /** That can be read off the layout; of the 12-bit ones it is the one of a floppy disk, and
      tables of one sector. */
  lemma InPlaceIff(g: Geometry)
    requires g.Valid()
    ensures AllInPlace(g) <==>
      g.ft == 16 || (g.ft == 32 && g.Count() <= WRAP27) || (g.ft == 12 && (g.fatSz == 1 || (g.rsvd == 1 && g.fatSz == 9)))
  {
    hide Geometry.Count;
    if g.ft == 16 {
      forall c: nat | g.Holds(c) ensures !g.Straddles(c) { Places(g, c); }
    } else if g.ft == 32 {
      forall c: nat | g.Holds(c) ensures !g.Straddles(c) { Places(g, c); }
      assert WRAP27 < g.Count() ==> g.Holds(WRAP27) && !ReadsRight(g, WRAP27);
    } else {
      forall c: nat | g.Holds(c) ensures g.Straddles(c) ==> g.fatSz > 1 { EntryInSector(g, c); }
      if g.fatSz > 1 { Held341(g); }
      assert g.Straddles(341) && 341 % 2 == 1;
    }
  }

  lemma Held341(g: Geometry)
    requires g.Valid() && g.ft == 12 && g.fatSz > 1
    ensures g.Holds(341)
  {
  }

  /** A pass over a closed table leaves it closed and follows a link of it. */
  lemma ClosedPass(g: Geometry, d: Disk, c: nat, v: nat)
    requires g.Valid() && DiskOk(g, d) && Closed(g, Table(g, d)) && g.Holds(c) && c <= g.MaxClus()
    requires ReadsRight(g, c) && WriteRight(g, c, v) && (v == 0 || v == g.Eoc())
    ensures OnDisk(g, d, c) && Inside(g, Seen(g, d, c)) && Closed(g, Table(g, After(g, d, c, v)))
  {
    hide After, Seen, Entry, Table, CanRead, CanWrite, WriteRight, Rest;
    CanClear(g, d, c, v);
    SeenIsEntry(g, d, c);
    TableAt(g, d, c);
    AfterTable(g, d, c, v);
  }

  lemma {:induction false} ClosedWithin(g: Geometry, d: Disk, c: nat, met: iset<nat>, n: nat)
    requires g.Valid() && DiskOk(g, d) && AllInPlace(g) && Closed(g, Table(g, d)) && Inside(g, c)
    requires met == iset v: nat | g.Holds(v) && IsNumber(g, v)
    ensures Within(g, d, c, met, n)
    decreases n
  {
    hide After, Seen, CanRead, CanWrite, WriteRight, ReadsRight, Table, Closed;
    if n > 0 && 2 <= c <= g.MaxClus() {
      ClosedPass(g, d, c, 0);
      ClosedWithin(g, After(g, d, c, 0), Seen(g, d, c), met, n - 1);
    }
  }

  /** So on a closed table whose entries are all in place the loop ends, cycles or not. */
  lemma ClosedEnds(g: Geometry, d: Disk, c: nat)
    requires g.Valid() && DiskOk(g, d) && AllInPlace(g) && Closed(g, Table(g, d)) && Inside(g, c)
    ensures Ends(g, d, c)
  {
    hide Table, Closed, Within, WriteRight, Ends;
    var met := iset v: nat | g.Holds(v) && IsNumber(g, v);
    forall n: nat ensures Within(g, d, c, met, n) { ClosedWithin(g, d, c, met, n); }
    forall v | v in met
      ensures Tame(g, v)
    {
      Places(g, v);
    }
    EndsIfTame(g, d, c, met);
  }

  /** And `releaseclus` of any of its clusters does. */
  lemma ClosedReleaseEnds(g: Geometry, d: Disk, clus: nat, flag: bool)
    requires g.Valid() && DiskOk(g, d) && AllInPlace(g) && Closed(g, Table(g, d))
    requires g.Holds(clus) && clus <= g.MaxClus() && WriteRight(g, clus, Mark(g, flag))
    ensures ReleaseEnds(g, d, clus, flag)
  {
    hide After, Seen, Table, Closed, CanRead, CanWrite, WriteRight, Ends;
    ClosedPass(g, d, clus, Mark(g, flag));
    ClosedEnds(g, After(g, d, clus, Mark(g, flag)), Seen(g, d, clus));
  }

  /** Giving a cluster back too, the call is just one more pass of the loop. */
  lemma ReleaseIsLoop(g: Geometry, d: Disk, c: nat)
    requires g.Valid() && DiskOk(g, d) && 2 <= c <= g.MaxClus()
    ensures ReleaseEnds(g, d, c, true) <==> Ends(g, d, c)
  {
    hide After, Seen, CanRead, CanWrite;
    if Ends(g, d, c) {
      var n: nat :| EndsIn(g, d, c, n);
      assert EndsIn(g, After(g, d, c, 0), Seen(g, d, c), n - 1);
    }
    if ReleaseEnds(g, d, c, true) {
      var n: nat :| EndsIn(g, After(g, d, c, 0), Seen(g, d, c), n);
      assert EndsIn(g, d, c, n + 1);
    }
  }

  // ---- the others keep it going

  /** The loop is still running after `n` passes, all of them on the disk. */
  ghost predicate GoesOn(g: Geometry, d: Disk, c: nat, n: nat)
    requires g.Valid() && DiskOk(g, d)
    decreases n
  {
    && 2 <= c <= g.MaxClus()
    && (n == 0 || (OnDisk(g, d, c) && GoesOn(g, After(g, d, c, 0), Seen(g, d, c), n - 1)))
  }

  lemma {:induction false} NoEnd(g: Geometry, d: Disk, c: nat, n: nat)
    requires g.Valid() && DiskOk(g, d) && GoesOn(g, d, c, n)
    ensures !EndsIn(g, d, c, n)
    decreases n
  {
    hide After, Seen, CanRead, CanWrite;
    if n > 0 { NoEnd(g, After(g, d, c, 0), Seen(g, d, c), n - 1); }
  }

  lemma NeverEnds(g: Geometry, d: Disk, c: nat)
    requires g.Valid() && DiskOk(g, d) && forall n :: GoesOn(g, d, c, n)
    ensures !Ends(g, d, c)
  {
    hide GoesOn, EndsIn;
    forall n: nat
      ensures !EndsIn(g, d, c, n)
    {
      NoEnd(g, d, c, n);
    }
  }

  /** Every cluster number's sectors are on the disk. */
  ghost predicate Roomy(g: Geometry, d: Disk)
    requires g.Valid()
  {
    DiskOk(g, d) && forall c :: 2 <= c <= g.MaxClus() ==> OnDisk(g, d, c)
  }

  function Blank(g: Geometry): (d: Disk)
    requires g.Valid()
    ensures |d| == g.rsvd + 2 * g.fatSz + 0x20_0010
    ensures forall s :: 0 <= s < |d| ==> |d[s]| == SECTOR && forall o :: 0 <= o < SECTOR ==> d[s][o] == 0
  {
    Spotted(g.rsvd + 2 * g.fatSz + 0x20_0010, g.rsvd + 2 * g.fatSz + 0x20_0010)
  }

  lemma LongIsRoomy(g: Geometry, d: Disk)
    requires g.Valid() && |d| == |Blank(g)| && forall s :: 0 <= s < |d| ==> |d[s]| == SECTOR
    ensures Roomy(g, d)
  {
    hide ReadAt, Geometry.Straddles, Geometry.At, Blank;
    forall c | 2 <= c <= g.MaxClus()
      ensures OnDisk(g, d, c)
    {
      ReadsHome(g, c);
      Places(g, c);
      if g.ft == 32 { Places(g, c % WRAP27); }
    }
  }

  function WithByte(d: Disk, s: nat, o: nat, v: nat): (r: Disk)
    requires s < |d| && o < |d[s]| && v < 256
  {
    d[s := d[s][o := v as byte]]
  }

  /** The clusters whose entry is never cleared where it is read. */
  predicate Stuck(g: Geometry, c: nat)
    requires g.Valid()
  {
    if g.ft == 32 then c >= WRAP27 else g.Awkward(c) && g.rsvd != 1 && g.rsvd != 10
  }

  lemma StuckStays(g: Geometry, d: Disk, c: nat)
    requires g.Valid() && DiskOk(g, d) && OnDisk(g, d, c) && c <= g.MaxClus() && Stuck(g, c)
    ensures OnDisk(g, After(g, d, c, 0), c) && Seen(g, After(g, d, c, 0), c) == Seen(g, d, c)
  {
    hide Geometry.Straddles, Geometry.At, ReadAt, WithEntry;
    Places(g, c);
    ReadsHome(g, c);
    if g.ft == 32 {
      Places(g, c % WRAP27);
      assert c % WRAP27 * 4 / 512 < c * 4 / 512;
    } else {
      SeenHalves(g, d, c);
    }
  }

  lemma {:induction false} SelfLoop(g: Geometry, d: Disk, c: nat, n: nat)
    requires g.Valid() && DiskOk(g, d) && OnDisk(g, d, c) && 2 <= c <= g.MaxClus() && Stuck(g, c) && Seen(g, d, c) == c
    ensures GoesOn(g, d, c, n) && Within(g, d, c, iset{c}, n)
    decreases n
  {
    hide After, Seen, Stuck, CanRead, CanWrite;
    if n > 0 {
      StuckStays(g, d, c);
      SelfLoop(g, After(g, d, c, 0), c, n - 1);
    }
  }

  /** A disk on which such a cluster leads to itself. */
  lemma StuckDisk(g: Geometry, c: nat) returns (d: Disk)
    requires g.Valid() && 2 <= c <= g.MaxClus() && Stuck(g, c)
    ensures Roomy(g, d) && OnDisk(g, d, c) && Seen(g, d, c) == c
  {
    hide Geometry.Straddles, Geometry.At, ReadAt, Blank;
    d := Blank(g);
    LongIsRoomy(g, d);
    Places(g, c);
    ReadsHome(g, c);
    assert OnDisk(g, d, c);
    if g.ft == 32 {
      var s, o := ReadAt(g, c), Offset(g, c);
      d := d[s := WithWord(WithWord(d[s], o, c % 65536), o + 2, c / 65536)];
      LongIsRoomy(g, d);
    } else {
      var q := g.At(c) / SECTOR;
      d := WithByte(d, g.rsvd + q, 511, c % 16 * 16);
      d := WithByte(d, q + 2, 0, c / 16);
      LongIsRoomy(g, d);
      SeenHalves(g, d, c);
    }
  }

  /** With 10 reserved sectors, clearing cluster 3413 copies sector 19 onto sector 10, where
      the entry of cluster 16 has just been cleared. */
  ghost predicate Restores(g: Geometry, d: Disk)
    requires g.Valid()
  {
    && DiskOk(g, d) && g.ft == 12 && g.rsvd == 10 && g.fatSz > 10 && OnDisk(g, d, 3413) && OnDisk(g, d, 16)
    && d[11][0] == 1 && d[19][511] as int / 16 == 0 && WordIn(d[19], 24) % 4096 == 3413
  }

  lemma RestoresPass(g: Geometry, d: Disk)
    requires g.Valid() && Restores(g, d)
    ensures Seen(g, d, 3413) == 16
    ensures var d1 := After(g, d, 3413, 0); OnDisk(g, d1, 16) && Seen(g, d1, 16) == 3413 && Restores(g, After(g, d1, 16, 0))
  {
    hide ReadAt, WithEntry;
    ReadsHome(g, 3413);
    ReadsHome(g, 16);
    assert d[19][511 := (d[19][511] as int % 16) as byte] == d[19];
    var d1 := After(g, d, 3413, 0);
    assert d1[10] == d[19] && d1[11] == d[11] && d1[19] == d[19];
  }

  lemma {:induction false} RestoresGoesOn(g: Geometry, d: Disk, n: nat)
    requires g.Valid() && Restores(g, d)
    ensures GoesOn(g, d, 3413, n) && Within(g, d, 3413, iset{3413, 16}, n)
    decreases n
  {
    hide After, Seen, CanRead, CanWrite;
    RestoresPass(g, d);
    if n > 1 {
      RestoresGoesOn(g, After(g, After(g, d, 3413, 0), 16, 0), n - 2);
      var d1 := After(g, d, 3413, 0);
      assert GoesOn(g, d1, 16, n - 1) && Within(g, d1, 16, iset{3413, 16}, n - 1);
    }
  }

  lemma RestoresDisk(g: Geometry) returns (d: Disk)
    requires g.Valid() && g.ft == 12 && g.rsvd == 10 && g.fatSz > 10
    ensures Roomy(g, d) && Restores(g, d)
  {
    hide CanRead, CanWrite, Blank;
    d := Blank(g);
    d := WithByte(d, 11, 0, 1);
    d := d[19 := WithWord(d[19], 24, 3413)];
    LongIsRoomy(g, d);
  }

  /** Exactly the tame ones: any other cluster of a table starts a run without end, on a disk
      with all the sectors there can be, among clusters of the table. */
  lemma RunsForEver(g: Geometry, c: nat) returns (d: Disk, met: iset<nat>)
    requires g.Valid() && g.Holds(c) && c <= g.MaxClus() && !Tame(g, c)
    ensures Roomy(g, d) && !Ends(g, d, c) && !ReleaseEnds(g, d, c, true)
    ensures (forall v :: v in met ==> g.Holds(v)) && forall n :: Within(g, d, c, met, n)
  {
    hide ReleaseEnds, Seen, GoesOn, Within, CanRead, CanWrite, Ends;
    if Stuck(g, c) {
      d := StuckDisk(g, c);
      met := iset{c};
      forall n: nat ensures GoesOn(g, d, c, n) && Within(g, d, c, met, n) { SelfLoop(g, d, c, n); }
    } else {
      assert c == 3413 && g.fatSz > 10;
      d := RestoresDisk(g);
      met := iset{3413, 16};
      forall n: nat ensures GoesOn(g, d, c, n) && Within(g, d, c, met, n) { RestoresGoesOn(g, d, n); }
    }
    NeverEnds(g, d, c);
    ReleaseIsLoop(g, d, c);
  }

  // ---- which file systems are safe

  /** The link that cluster 682 goes to when its own bits are cleared: a multiple of 256 whose
      entry lies where the second copy of the entry of 682 is written. */
  function Behind(fatSz: nat): nat { 256 * (4 * (1 + fatSz) / 3 + 1) }

  function BehindAt(fatSz: nat): nat { Behind(fatSz) * 12 / 8 % SECTOR }

  lemma BehindPlace(fatSz: nat)
    requires 1 <= fatSz <= 10
    ensures 256 <= Behind(fatSz) <= 3840 && Behind(fatSz) / 256 < 16 && Behind(fatSz) * 12 / 8 / SECTOR == 1 + fatSz
    ensures 128 <= BehindAt(fatSz) <= 384
  {
  }

  /** With 10 reserved sectors and a small table, clearing cluster 682 brings the link back
      that cluster `Behind` had. */
  ghost predicate Returns(g: Geometry, d: Disk)
    requires g.Valid()
  {
    && DiskOk(g, d) && g.ft == 12 && g.rsvd == 10 && g.fatSz <= 10 && OnDisk(g, d, 682) && OnDisk(g, d, Behind(g.fatSz))
    && d[11][511] == 0 && d[3][0] as int % 16 == Behind(g.fatSz) / 256
    && BehindAt(g.fatSz) <= 384 && WordIn(d[11], BehindAt(g.fatSz)) % 4096 == 682
  }

  lemma ReturnsPass(g: Geometry, d: Disk)
    requires g.Valid() && Returns(g, d)
    ensures Seen(g, d, 682) == Behind(g.fatSz)
    ensures var d1 := After(g, d, 682, 0);
      && OnDisk(g, d1, Behind(g.fatSz)) && Seen(g, d1, Behind(g.fatSz)) == 682 && Returns(g, After(g, d1, Behind(g.fatSz), 0))
  {
    hide ReadAt, WithEntry, Behind, BehindAt;
    var w := Behind(g.fatSz);
    BehindPlace(g.fatSz);
    BehindEven(g.fatSz);
    ReadsHome(g, 682);
    ReadsHome(g, w);
    Places(g, w);
    assert d[11][511 := 0] == d[11];
    var d1 := After(g, d, 682, 0);
    var o := BehindAt(g.fatSz);
    assert d1[11] == d[11] && d1[3] == d[3] && d1[11 + g.fatSz][o] == d[11][o] && d1[11 + g.fatSz][o + 1] == d[11][o + 1];
  }

  lemma BehindEven(fatSz: nat)
    ensures Behind(fatSz) % 2 == 0 && Behind(fatSz) % 256 == 0 && BehindAt(fatSz) == Behind(fatSz) * 12 / 8 % SECTOR
  {
  }

  lemma {:induction false} ReturnsGoesOn(g: Geometry, d: Disk, n: nat)
    requires g.Valid() && Returns(g, d)
    ensures GoesOn(g, d, 682, n)
    decreases n
  {
    hide After, Seen, CanRead, CanWrite, Behind;
    ReturnsPass(g, d);
    BehindPlace(g.fatSz);
    if n > 1 {
      ReturnsGoesOn(g, After(g, After(g, d, 682, 0), Behind(g.fatSz), 0), n - 2);
      assert GoesOn(g, After(g, d, 682, 0), Behind(g.fatSz), n - 1);
    }
  }

  lemma ReturnsDisk(g: Geometry) returns (d: Disk)
    requires g.Valid() && g.ft == 12 && g.rsvd == 10 && g.fatSz <= 10
    ensures Roomy(g, d) && Returns(g, d)
  {
    hide CanRead, CanWrite, Blank, Behind, BehindAt;
    BehindPlace(g.fatSz);
    d := Blank(g);
    d := WithByte(d, 3, 0, Behind(g.fatSz) / 256);
    d := d[11 := WithWord(d[11], BehindAt(g.fatSz), 682)];
    LongIsRoomy(g, d);
  }

  /** `releaseclus` ends on all contents exactly if every cluster number is read right. */
  lemma AlwaysEndsIff(g: Geometry)
    requires g.Valid()
    ensures (forall d, c :: Roomy(g, d) ==> Ends(g, d, c)) <==> forall c :: 2 <= c <= g.MaxClus() ==> ReadsRight(g, c)
    ensures (forall d, c, flag :: Roomy(g, d) && IsNumber(g, c) ==> ReleaseEnds(g, d, c, flag))
            <==> forall c :: 2 <= c <= g.MaxClus() ==> ReadsRight(g, c)
    ensures (forall c :: 2 <= c <= g.MaxClus() ==> ReadsRight(g, c)) <==> g.ft == 16 || (g.ft == 12 && g.rsvd == 1)
  {
    hide Ends, CanRead, CanWrite, GoesOn, Seen, ReleaseEnds;
    WhenReadRight(g);
    if g.ft == 16 || (g.ft == 12 && g.rsvd == 1) {
      forall d, c | Roomy(g, d)
        ensures Ends(g, d, c)
      {
        RoomyEnds(g, d, c);
      }
      forall d, c, flag | Roomy(g, d) && IsNumber(g, c)
        ensures ReleaseEnds(g, d, c, flag)
      {
        EveryReleaseEnds(g, d, c, flag);
      }
    } else {
      var d, c := EndlessDisk(g);
      ReleaseIsLoop(g, d, c);
      assert Roomy(g, d) && !Ends(g, d, c) && IsNumber(g, c) && !ReleaseEnds(g, d, c, true);
    }
  }

  lemma WhenReadRight(g: Geometry)
    requires g.Valid()
    ensures (forall c :: 2 <= c <= g.MaxClus() ==> ReadsRight(g, c)) <==> g.ft == 16 || (g.ft == 12 && g.rsvd == 1)
  {
    if g.ft == 32 { assert !ReadsRight(g, WRAP27); }
    if g.ft == 12 && g.rsvd != 1 { assert !ReadsRight(g, 341); }
  }

  lemma RoomyEnds(g: Geometry, d: Disk, c: nat)
    requires g.Valid() && Roomy(g, d) && (g.ft == 16 || (g.ft == 12 && g.rsvd == 1))
    ensures Ends(g, d, c)
  {
    hide OnDisk, ReadsRight;
    WhenReadRight(g);
    var met := iset v: nat | IsNumber(g, v);
    forall n: nat ensures Within(g, d, c, met, n) { AllWithin(g, d, c, met, n); }
    EndsIfReadRight(g, d, c, met);
  }

  lemma {:induction false} AllWithin(g: Geometry, d: Disk, c: nat, met: iset<nat>, n: nat)
    requires g.Valid() && Roomy(g, d) && met == iset v: nat | IsNumber(g, v)
    ensures Within(g, d, c, met, n)
    decreases n
  {
    hide After, Seen, CanRead, CanWrite;
    if n > 0 && 2 <= c <= g.MaxClus() {
      assert OnDisk(g, d, c);
      StillRoomy(g, d, After(g, d, c, 0));
      AllWithin(g, After(g, d, c, 0), Seen(g, d, c), met, n - 1);
    }
  }

  lemma StillRoomy(g: Geometry, d: Disk, d': Disk)
    requires g.Valid() && Roomy(g, d) && DiskOk(g, d') && |d'| == |d|
    ensures Roomy(g, d')
  {
    forall c | 2 <= c <= g.MaxClus() ensures OnDisk(g, d', c) { assert OnDisk(g, d, c); }
  }

  lemma EndlessDisk(g: Geometry) returns (d: Disk, c: nat)
    requires g.Valid() && g.ft != 16 && (g.ft == 12 ==> g.rsvd != 1)
    ensures Roomy(g, d) && IsNumber(g, c) && !Ends(g, d, c)
  {
    hide Seen, GoesOn, CanRead, CanWrite, Ends;
    if g.ft == 12 && g.rsvd == 10 {
      if g.fatSz > 10 {
        c := 3413;
        d := RestoresDisk(g);
        forall n: nat ensures GoesOn(g, d, c, n) { RestoresGoesOn(g, d, n); }
      } else {
        c := 682;
        d := ReturnsDisk(g);
        forall n: nat ensures GoesOn(g, d, c, n) { ReturnsGoesOn(g, d, n); }
      }
    } else {
      c := if g.ft == 32 then WRAP27 else 341;
      assert Stuck(g, c);
      d := StuckDisk(g, c);
      forall n: nat ensures GoesOn(g, d, c, n) { SelfLoop(g, d, c, n); }
    }
    NeverEnds(g, d, c);
  }

  /** On such file systems every release ends, and with it `ReleaseClus` has nothing to ask. */
  lemma EveryReleaseEnds(g: Geometry, d: Disk, clus: nat, flag: bool)
    requires g.Valid() && Roomy(g, d) && OnDisk(g, d, clus) && (g.ft == 16 || (g.ft == 12 && g.rsvd == 1))
    ensures ReleaseEnds(g, d, clus, flag)
  {
    hide CanRead, CanWrite, After, Seen, Ends;
    StillRoomy(g, d, After(g, d, clus, Mark(g, flag)));
    RoomyEnds(g, After(g, d, clus, Mark(g, flag)), Seen(g, d, clus));
  }

  /** On FAT32 closed tables are safe exactly up to 2^27 entries. */
  lemma Closed32Iff(g: Geometry)
    requires g.Valid() && g.ft == 32
    ensures (forall d, c :: Roomy(g, d) && Closed(g, Table(g, d)) && Inside(g, c) ==> Ends(g, d, c))
            <==> g.Count() <= WRAP27
  {
    hide Table, Closed, Ends, CanRead, CanWrite, Seen, GoesOn;
    InPlaceIff(g);
    if g.Count() <= WRAP27 {
      forall d, c | Roomy(g, d) && Closed(g, Table(g, d)) && Inside(g, c)
        ensures Ends(g, d, c)
      {
        ClosedEnds(g, d, c);
      }
    } else {
      assert g.Holds(WRAP27);
      var d := LoopTable(g);
      forall n: nat ensures GoesOn(g, d, WRAP27, n) { SelfLoop(g, d, WRAP27, n); }
      NeverEnds(g, d, WRAP27);
      assert Inside(g, WRAP27);
    }
  }

  /** A table of more entries, empty but for entry 0, on which cluster 2^27 leads to itself. */
  lemma LoopTable(g: Geometry) returns (d: Disk)
    requires g.Valid() && g.ft == 32 && g.Count() > WRAP27
    ensures Roomy(g, d) && Seen(g, d, WRAP27) == WRAP27 && Closed(g, Table(g, d))
  {
    hide ReadAt, Blank, Table;
    d := Blank(g);
    ReadsHome(g, WRAP27);
    d := d[g.rsvd := WithWord(d[g.rsvd], 2, WRAP27 / 65536)];
    LongIsRoomy(g, d);
    forall c: nat | g.Holds(c)
      ensures Table(g, d)[c] == 0
    {
      EmptyEntry(g, d, c);
    }
  }

  lemma EmptyEntry(g: Geometry, d: Disk, c: nat)
    requires g.Valid() && DiskOk(g, d) && g.ft == 32 && g.Holds(c)
    requires forall s, o :: 0 <= s < |d| && 0 <= o < SECTOR && !(s == g.rsvd && o < 4) ==> d[s][o] == 0
    ensures Table(g, d)[c] == 0
  {
    TableAt(g, d, c);
    InTable(g, c);
    Places(g, c);
    SameSector(g.At(c), 4);
  }
}
