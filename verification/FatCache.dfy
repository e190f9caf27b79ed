/** kernel/fat.c: the sector buffer, and the two functions that go through it to read and
    to write an entry. */
module FatCache {
  import opened Basics
  import opened FatEntries
  import opened FatTable
  import opened FatWrite

  ghost predicate Cached(d: Disk, buffer: seq<byte>, last: int) {
    last == -1 || (0 <= last < |d| && d[last] == buffer)
  }

  class Fat {
    const g: Geometry
    const disk: array<seq<byte>>      // the sectors of the partition
    const buffer: array<byte>         // BUFFER_FAT
    var lastAccess: int

    /** Everything but the cache. */
    ghost predicate Sound()
      reads this, disk, buffer
    {
      g.Valid() && DiskOk(g, disk[..]) && buffer.Length == SECTOR
    }

    ghost predicate Valid()
      reads this, disk, buffer
    {
      Sound() && Cached(disk[..], buffer[..], lastAccess)
    }

    constructor (g: Geometry, sectors: Disk)
      requires g.Valid() && DiskOk(g, sectors)
      ensures Valid() && this.g == g && disk[..] == sectors && fresh(disk) && fresh(buffer)
    {
      this.g := g;
      disk := new seq<byte>[|sectors|](i requires 0 <= i < |sectors| => sectors[i]);
      buffer := new byte[SECTOR](_ => 0);
      lastAccess := -1;
    }

    method ReadSector(sec: nat)
      requires Valid() && sec < disk.Length
      modifies this`lastAccess, buffer
      ensures Valid() && lastAccess == sec && buffer[..] == disk[sec]
    {
      if sec != lastAccess {
        forall i | 0 <= i < SECTOR {
          buffer[i] := disk[sec][i];
        }
        lastAccess := sec;
      }
    }

    method WriteSector(sec: nat)
      requires Sound() && sec < disk.Length
      modifies this`lastAccess, disk
      ensures Valid() && lastAccess == sec && disk[..] == old(disk[..])[sec := buffer[..]]
    {
      disk[sec] := buffer[..];
      lastAccess := sec;
    }

    /** The sector goes to both copies of the table. */
    method WriteBoth(sec: nat)
      requires Sound() && sec + g.fatSz < disk.Length
      modifies this`lastAccess, disk
      ensures Valid() && disk[..] == Both(g, old(disk[..]), sec, buffer[..])
    {
      WriteSector(sec);
      WriteSector(sec + g.fatSz);
    }

    function Word(o: nat): (w: int)
      requires o + 1 < buffer.Length
      reads buffer
      ensures 0 <= w < 65536
    {
      WordIn(buffer[..], o)
    }

    method SetWord(o: nat, w: nat)
      requires Sound() && o + 1 < buffer.Length && w < 65536
      modifies buffer
      ensures buffer[..] == WithWord(old(buffer[..]), o, w)
    {
      buffer[o] := (w % 256) as byte;
      buffer[o + 1] := (w / 256) as byte;
    }

    method GetNextClus(clus: nat) returns (r: nat)
      requires Valid() && (2 <= clus < g.Beoc() ==> CanRead(g, disk[..], clus))
      modifies this`lastAccess, buffer
      ensures Valid() && r == if 2 <= clus < g.Beoc() then Seen(g, disk[..], clus) else g.Eoc()
      ensures clus < 2 || clus >= (if g.ft == 32 then 0xFFFFFF8 else if g.ft == 16 then 0xFFF8 else 0xFF8)
        <==> !(2 <= clus < g.Beoc())
      ensures !(2 <= clus < g.Beoc()) ==> r == if g.ft == 32 then 0xFFFFFFF else if g.ft == 16 then 0xFFFF else 0xFFF
    {
      if clus < 2 || clus >= g.Beoc() {
        return g.Eoc();
      }
      hide Geometry.At, ReadAt, WordIn;
      Places(g, clus);
      ReadSector(ReadAt(g, clus));
      if g.ft == 12 {
        var o := clus * 12 / 8 % 512;
        if o != 511 {
          var next := Word(o);
          return if clus % 2 == 1 then next / 16 else next % 4096;
        } else if clus % 2 == 1 {
          var next := buffer[511] as int / 16;
          ReadSector(clus * 12 / 8 / 512 + 2);
          return next + buffer[0] as int * 16;
        } else {
          var next := buffer[511] as int;
          ReadSector(clus * 12 / 8 / 512 + 2);
          return next + buffer[0] as int % 16 * 256;
        }
      } else if g.ft == 16 {
        return Word(clus % 256 * 2);
      } else {
        return Word(clus % 128 * 4) + 65536 * Word(clus % 128 * 4 + 2);
      }
    }

    /** Lines 211-219, 245-248 and 251-254: an entry that lies in one sector. */
    method PutWord(clus: nat, s: nat, o: nat, next: nat)
      requires Valid() && CanWrite(g, disk[..], clus) && !g.Straddles(clus) && next < TWO32
      requires s == Home(g, clus) && o == Offset(g, clus)
      modifies this`lastAccess, buffer, disk
      ensures Valid() && disk[..] == After(g, old(disk[..]), clus, next)
    {
      hide Packed, Geometry.At, WordIn, WithWord;
      ReadSector(s);
      if g.ft == 32 {
        SetWord(o, next % 65536);
        SetWord(o + 2, next / 65536);
      } else {
        PackedRange(g.ft, clus % 2 == 1, Word(o), next);
        SetWord(o, Packed(g.ft, clus % 2 == 1, Word(o), next));
      }
      WriteBoth(s);
    }

    /** Lines 232-240: an even entry of 12 bits across two sectors. */
    method PutEven(clus: nat, s: nat, next: nat)
      requires Valid() && CanWrite(g, disk[..], clus) && g.Straddles(clus) && clus % 2 == 0 && next < TWO32
      requires s == Home(g, clus)
      modifies this`lastAccess, buffer, disk
      ensures Valid() && disk[..] == After(g, old(disk[..]), clus, next)
    {
      hide Geometry.At, Both;
      ReadSector(s);
      buffer[511] := (next % 256) as byte;
      WriteBoth(s);
      ReadSector(s + 1);
      buffer[0] := (Or(buffer[0] as int / 16 * 16, next / 256) % 256) as byte;
      WriteBoth(s + 1);
    }

    /** Lines 222-230: an odd one. */
    method PutOdd(clus: nat, q: nat, next: nat)
      requires Valid() && CanWrite(g, disk[..], clus) && g.Straddles(clus) && clus % 2 == 1 && next < TWO32
      requires q == g.At(clus) / SECTOR
      modifies this`lastAccess, buffer, disk
      ensures Valid() && disk[..] == After(g, old(disk[..]), clus, next)
    {
      hide Geometry.At, Both;
      ReadSector(q + g.rsvd);
      buffer[511] := (Or(buffer[511] as int % 16, next % 16) % 256) as byte;
      WriteSector(q + 1);
      WriteSector(q + 10);
      ReadSector(q + g.rsvd + 1);
      buffer[0] := (next / 16 % 256) as byte;
      WriteBoth(q + g.rsvd + 1);
    }

    /** kernel/fat.c `writenextclus`. */
    method WriteNextClus(clus: nat, next: nat) returns (ret: int)
      requires Valid() && next < TWO32 && (2 <= clus < g.Beoc() ==> CanWrite(g, disk[..], clus))
      modifies this`lastAccess, buffer, disk
      ensures Valid() && ret == (if 2 <= clus < g.Beoc() then 0 else -1)
      ensures ret == 0 <==> 2 <= clus < (if g.ft == 32 then 0xFFFFFF8 else if g.ft == 16 then 0xFFF8 else 0xFF8)
      ensures ret == -1 ==> disk[..] == old(disk[..])
      ensures ret == 0 ==> disk[..] == After(g, old(disk[..]), clus, next)
      ensures ret == 0 && clus < g.Count() && WriteRight(g, clus, next) ==>
        && Table(g, disk[..]) == Table(g, old(disk[..]))[clus := Low(g, next)]
        && Rest(g, old(disk[..]), disk[..], clus)
    {
      hide Rest, Table, After, WriteRight, Geometry.At, Geometry.Count, Geometry.Straddles, CanWrite;
      if clus < 2 || clus >= g.Beoc() {
        return -1;
      }
      ghost var d := disk[..];
      Places(g, clus);
      if clus < g.Count() && WriteRight(g, clus, next) { AfterTable(g, d, clus, next); }
      if g.ft == 12 {
        var i := clus * 12 / 8;
        if i % 512 != 511 {
          PutWord(clus, i / 512 + g.rsvd, i % 512, next);
        } else if clus % 2 == 1 {
          PutOdd(clus, i / 512, next);
        } else {
          PutEven(clus, i / 512 + g.rsvd, next);
        }
      } else if g.ft == 16 {
        PutWord(clus, clus * 2 / 512 + g.rsvd, clus % 256 * 2, next);
      } else {
        PutWord(clus, clus * 4 / 512 + g.rsvd, clus % 128 * 4, next);
      }
      ret := 0;
    }
  }
}
