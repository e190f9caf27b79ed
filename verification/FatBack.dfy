/** kernel/fat.c `getpreclus`: on which file systems seeking backward in a file is right. */
module FatBack {
  import opened FatEntries
  import opened FatTable
  import opened FatWrite
  import opened FatChain

  /** On all tables, in all files, the search finds the cluster before. */
  ghost predicate BacksRight(g: Geometry)
    requires g.Valid()
  {
    forall d, ch, k: nat ::
      DiskOk(g, d) && Chain(g, Table(g, d), ch) && OnePredecessor(g, Table(g, d)) && 0 < k < |ch| ==> Before(g, d, ch[k], 2) == ch[k - 1]
  }

  /** The layouts without a misread cluster below a readable one. */
  predicate NoneAstray(g: Geometry) {
    g.ft != 12 || g.rsvd == 1 || g.fatSz == 1
  }

  lemma NoneAstrayScans(g: Geometry, p: nat)
    requires g.Valid() && NoneAstray(g) && Readable(g, p)
    ensures ScansRight(g, p)
  {
    forall n: nat | g.Holds(n) && n < p
      ensures ReadsRight(g, n)
    {
      Places(g, n);
      EntryInSector(g, n);
    }
  }

  /** A disk of zeros but for one byte in front of the table, or in its first entry. */
  function Bare(g: Geometry): (d: Disk)
    requires g.Valid() && g.rsvd > 1 && g.fatSz > 1
    ensures DiskOk(g, d) && |d| == g.rsvd + 2 * g.fatSz
    ensures forall s, o :: 0 <= s < |d| && 0 <= o < SECTOR ==> d[s][o] == if s == 2 && o == 0 then 22 else 0
  {
    var d := Spotted(g.rsvd + 2 * g.fatSz, g.rsvd + 2 * g.fatSz);
    d[2 := d[2][0 := 22]]
  }

  lemma BareTable(g: Geometry)
    requires g.Valid() && g.ft == 12 && g.rsvd > 1 && g.fatSz > 1
    ensures |Table(g, Bare(g))| == g.Count() > 400 && forall c :: 2 <= c < g.Count() ==> Table(g, Bare(g))[c] == 0
  {
    hide Bare;
    var d := Bare(g);
    forall c | 2 <= c < g.Count()
      ensures Entry(g, d, c) == 0
    {
      InTable(g, c);
      assert g.At(c) >= 3;
      FatByteAt(g, d, g.At(c));
      FatByteAt(g, d, g.At(c) + 1);
    }
  }

  /** That disk with one file, of clusters 342 and 352. */
  function Misled(g: Geometry): (d: Disk)
    requires g.Valid() && g.ft == 12 && g.rsvd > 1 && g.fatSz > 1
    ensures DiskOk(g, d)
  {
    After(g, After(g, Bare(g), 342, 352), 352, 0xFFF)
  }

  lemma MisledTable(g: Geometry)
    requires g.Valid() && g.ft == 12 && g.rsvd > 1 && g.fatSz > 1
    ensures var t := Table(g, Misled(g));
      |t| == g.Count() > 400 && forall c :: 2 <= c < |t| ==> t[c] == if c == 342 then 352 else if c == 352 then 0xFFF else 0
  {
    hide Bare, Table, After;
    BareTable(g);
    var d := Bare(g);
    AfterTable(g, d, 342, 352);
    AfterTable(g, After(g, d, 342, 352), 352, 0xFFF);
  }

  /** The free cluster 341 straddles two sectors; its second half is looked for in sector 2. */
  lemma MisledSees(g: Geometry)
    requires g.Valid() && g.ft == 12 && g.rsvd > 1 && g.fatSz > 1
    ensures LeadsTo(g, Misled(g), 341, 352)
  {
    hide Bare, WithEntry;
    ReadsHome(g, 341);
    var d := Bare(g);
    var d1 := After(g, d, 342, 352);
    var d2 := After(g, d1, 352, 0xFFF);
    assert d2[g.rsvd] == d[g.rsvd] && d2[2] == d[2];
  }

  /** With more than one reserved sector seeking back goes astray in a single file, although
      its clusters are read right and no other link leads to them. */
  lemma GoesAstray(g: Geometry) returns (d: Disk, ch: seq<nat>)
    requires g.Valid() && !NoneAstray(g)
    ensures DiskOk(g, d) && |ch| == 2 && Chain(g, Table(g, d), ch) && Files(g, Table(g, d), [ch])
    ensures Before(g, d, ch[1], 2) != ch[0]
  {
    hide Table, Seen, Misled, LeadsTo;
    d, ch := Misled(g), [342, 352];
    MisledTable(g);
    MisledSees(g);
    BeforeIs(g, d, 352, 2);
    assert Readable(g, 342) && Readable(g, 352);
    forall c | 2 <= c < g.Count() && c <= g.MaxClus() && 2 <= Table(g, d)[c] <= g.MaxClus()
      ensures exists f :: 0 <= f < 1 && c in [ch][f]
    {
      assert c in [ch][0];
    }
  }

  /** Seeking back inside a file is right on all tables exactly on the layouts without. */
  lemma BacksRightIff(g: Geometry)
    requires g.Valid()
    ensures BacksRight(g) <==> NoneAstray(g)
  {
    hide Chain, OnePredecessor, Table, Before, Seen;
    if NoneAstray(g) {
      forall d, ch, k: nat | DiskOk(g, d) && Chain(g, Table(g, d), ch) && OnePredecessor(g, Table(g, d)) && 0 < k < |ch|
        ensures Before(g, d, ch[k], 2) == ch[k - 1]
      {
        LinkFacts(g, Table(g, d), ch, k - 1);
        NoneAstrayScans(g, ch[k - 1]);
        BeforeInChain(g, d, ch, k);
      }
    } else {
      var d, ch := GoesAstray(g);
      FilesHaveOnePredecessor(g, Table(g, d), [ch]);
      assert Before(g, d, ch[1], 2) != ch[1 - 1];
    }
  }
}
