/** kernel/fat.c and kernel/file.c: reading a file piece by piece and moving in it. */
module FatFile {
  import opened Basics
  import opened FatEntries
  import opened FatTable
  import opened FatCache
  import opened FatChain

  /** Where the data lies behind the tables. */
  datatype Layout = Layout(numFats: nat, rootEnt: nat, secPerClus: nat) {
    function DataStart(g: Geometry): nat {
      if g.ft == 32 then g.rsvd + numFats * g.fatSz else g.rsvd + numFats * g.fatSz + rootEnt * 32 / 512
    }

    function ClusBytes(): nat { secPerClus * SECTOR }

    /** First sector of a cluster. */
    function First(g: Geometry, clus: nat): int {
      DataStart(g) + (clus - 2) * secPerClus
    }

    predicate OnDisk(g: Geometry, d: Disk, clus: nat) {
      clus >= 2 && First(g, clus) + secPerClus <= |d|
    }
  }

  function Sectors(d: Disk, s: nat, n: nat): (r: seq<byte>)
    requires s + n <= |d| && forall i :: 0 <= i < |d| ==> |d[i]| == SECTOR
    ensures |r| == n * SECTOR
  {
    if n == 0 then [] else Sectors(d, s, n - 1) + d[s + n - 1]
  }

  lemma {:induction false} SectorsAt(d: Disk, s: nat, n: nat, j: nat)
    requires s + n <= |d| && j < n * SECTOR && forall i :: 0 <= i < |d| ==> |d[i]| == SECTOR
    ensures j / SECTOR < n && Sectors(d, s, n)[j] == d[s + j / SECTOR][j % SECTOR]
  {
    if j < (n - 1) * SECTOR { SectorsAt(d, s, n - 1, j); }
  }

  lemma StartsInside(g: Geometry, l: Layout, clus: nat)
    requires clus >= 2
    ensures 0 <= l.First(g, clus)
  {
    assert (clus - 2) * l.secPerClus >= 0;
  }

  function ClusData(g: Geometry, l: Layout, d: Disk, clus: nat): (r: seq<byte>)
    requires DiskOk(g, d) && l.OnDisk(g, d, clus)
    ensures |r| == l.ClusBytes()
  {
    StartsInside(g, l, clus);
    Sectors(d, l.First(g, clus), l.secPerClus)
  }

  ghost predicate AllOnDisk(g: Geometry, l: Layout, d: Disk, ch: seq<nat>) {
    DiskOk(g, d) && l.secPerClus > 0 && forall i :: 0 <= i < |ch| ==> l.OnDisk(g, d, ch[i])
  }

  /** Byte `p` of a file. */
  ghost function ByteAt(g: Geometry, l: Layout, d: Disk, ch: seq<nat>, p: nat): byte
    requires AllOnDisk(g, l, d, ch) && p < |ch| * l.ClusBytes()
  {
    Inside(p, |ch|, l.ClusBytes());
    ClusData(g, l, d, ch[p / l.ClusBytes()])[p % l.ClusBytes()]
  }

  /** All bytes of the clusters of a file. */
  ghost function Content(g: Geometry, l: Layout, d: Disk, ch: seq<nat>): (r: seq<byte>)
    requires AllOnDisk(g, l, d, ch)
    ensures |r| == |ch| * l.ClusBytes() && forall p :: 0 <= p < |r| ==> r[p] == ByteAt(g, l, d, ch, p)
  {
    var n: nat := |ch| * l.ClusBytes();
    seq(n, p requires 0 <= p < n => ByteAt(g, l, d, ch, p))
  }

  lemma Inside(p: nat, n: nat, cb: nat)
    requires cb > 0 && p < n * cb
    ensures p / cb < n && p % cb < cb
  {
    Times(n, p / cb, cb);
    Split(p, cb);
  }

  lemma Split(p: nat, cb: nat)
    requires cb > 0
    ensures p == p / cb * cb + p % cb && p % cb < cb
  {
  }

  lemma Quotient(q: nat, r: nat, cb: nat)
    requires r < cb
    ensures (q * cb + r) / cb == q && (q * cb + r) % cb == r
  {
    var x: nat := q * cb + r;
    Split(x, cb);
    Times(x / cb + 1, q, cb);
    Times(q + 1, x / cb, cb);
  }

  /** The cluster that belongs to a position: the one of the byte before it. */
  function NodeIndex(offset: nat, cb: nat): nat
    requires cb > 0
  {
    if offset == 0 then 0 else (offset - 1) / cb
  }

  /** `curnode` is the cluster that the byte at `offset` lies in. */
  predicate Entered(offset: nat, curnode: nat, ch: seq<nat>, cb: nat) {
    cb > 0 && offset / cb < |ch| && curnode == ch[offset / cb]
  }

  /** `c` bytes from `offset` on lie in one of `n` clusters. */
  predicate OnePiece(offset: nat, c: nat, n: nat, cb: nat) {
    cb > 0 && 0 < c <= cb - offset % cb && offset + c <= n * cb
  }

  /** Bytes `a` up to `b` of a file. */
  ghost function Part(g: Geometry, l: Layout, d: Disk, ch: seq<nat>, a: nat, b: nat): (r: seq<byte>)
    requires AllOnDisk(g, l, d, ch)
    ensures a <= b <= |ch| * l.ClusBytes() ==> |r| == b - a
  {
    if a <= b <= |ch| * l.ClusBytes() then Content(g, l, d, ch)[a..b] else []
  }

  lemma PartMore(g: Geometry, l: Layout, d: Disk, ch: seq<nat>, a: nat, b: nat, c: nat)
    requires AllOnDisk(g, l, d, ch) && a <= b <= c <= |ch| * l.ClusBytes()
    ensures Part(g, l, d, ch, a, b) + Part(g, l, d, ch, b, c) == Part(g, l, d, ch, a, c)
    ensures Part(g, l, d, ch, a, a) == []
  {
    hide Content, ByteAt, Layout.ClusBytes;
    ContentLength(g, l, d, ch);
  }

  lemma ContentLength(g: Geometry, l: Layout, d: Disk, ch: seq<nat>)
    requires AllOnDisk(g, l, d, ch)
    ensures |Content(g, l, d, ch)| == |ch| * l.ClusBytes()
  {
  }

  /** A position at a cluster border other than the start. */
  predicate AtBorder(offset: nat, cb: nat)
    requires cb > 0
  {
    offset > 0 && offset % cb == 0
  }

  lemma IndexAt(x: nat, cb: nat)
    requires cb > 0
    ensures NodeIndex(x, cb) == x / cb - (if AtBorder(x, cb) then 1 else 0)
  {
    Split(x, cb);
    if AtBorder(x, cb) {
      Times(x / cb, 0, cb);
      assert x - 1 == (x / cb - 1) * cb + (cb - 1);
      Quotient(x / cb - 1, cb - 1, cb);
    } else if x > 0 {
      Quotient(x / cb, x % cb - 1, cb);
    }
  }

  lemma OneByte(g: Geometry, l: Layout, d: Disk, ch: seq<nat>, p: nat, j: nat)
    requires AllOnDisk(g, l, d, ch) && p + j < |ch| * l.ClusBytes() && p % l.ClusBytes() + j < l.ClusBytes()
    ensures p / l.ClusBytes() < |ch|
    ensures ByteAt(g, l, d, ch, p + j) == ClusData(g, l, d, ch[p / l.ClusBytes()])[p % l.ClusBytes() + j]
  {
    hide ClusData;
    var cb := l.ClusBytes();
    Inside(p, |ch|, cb);
    Split(p, cb);
    Quotient(p / cb, p % cb + j, cb);
  }

  /** What one pass of `Fat_read` copies lies in one cluster. */
  lemma PieceIs(g: Geometry, l: Layout, d: Disk, ch: seq<nat>, p: nat, c: nat, node: nat)
    requires AllOnDisk(g, l, d, ch) && OnePiece(p, c, |ch|, l.ClusBytes()) && Entered(p, node, ch, l.ClusBytes())
    ensures l.OnDisk(g, d, node) && p % l.ClusBytes() + c <= l.ClusBytes()
    ensures ClusData(g, l, d, node)[p % l.ClusBytes()..p % l.ClusBytes() + c] == Part(g, l, d, ch, p, p + c)
  {
    hide ClusData, ByteAt, Layout.ClusBytes;
    var a := p % l.ClusBytes();
    ContentLength(g, l, d, ch);
    var data, all := ClusData(g, l, d, node)[a..a + c], Content(g, l, d, ch)[p..p + c];
    forall j | 0 <= j < c
      ensures all[j] == data[j]
    {
      OneByte(g, l, d, ch, p, j);
    }
  }

  class FileDes {
    var offset: nat
    var length: nat
    const startnode: nat
    var curnode: nat
    const nodebytes: nat

    constructor (startnode: nat, length: nat, nodebytes: nat)
      ensures this.offset == 0 && this.length == length && this.startnode == startnode && this.curnode == startnode
      ensures this.nodebytes == nodebytes
    {
      offset, this.length, this.startnode, curnode, this.nodebytes := 0, length, startnode, startnode, nodebytes;
    }

    /** The current cluster is the one of the position. */
    ghost predicate InPlace(ch: seq<nat>)
      reads this
    {
      && nodebytes > 0 && offset <= length <= |ch| * nodebytes && length < TWO32
      && (ch != [] ==> startnode == ch[0] && NodeIndex(offset, nodebytes) < |ch| && curnode == ch[NodeIndex(offset, nodebytes)])
    }
  }

  /** The file system, its layout, and a file whose clusters are `ch`; an empty one may have none. */
  ghost predicate Mounted(fat: Fat, l: Layout, ch: seq<nat>)
    reads fat, fat.disk, fat.buffer
  {
    fat.Valid() && AllOnDisk(fat.g, l, fat.disk[..], ch) && (ch != [] ==> Chain(fat.g, Table(fat.g, fat.disk[..]), ch))
  }

  /** kernel/fat.c `ReadClus`. */
  method ReadClus(fat: Fat, l: Layout, clus: nat, buff: array<byte>)
    requires fat.Valid() && l.OnDisk(fat.g, fat.disk[..], clus) && buff.Length == l.ClusBytes() && buff != fat.buffer
    modifies fat`lastAccess, fat.buffer, buff
    ensures fat.Valid() && buff[..] == ClusData(fat.g, l, fat.disk[..], clus)
    ensures forall j :: 0 <= j < buff.Length ==>
      var g := fat.g;
      var s := g.rsvd + l.numFats * g.fatSz + (if g.ft == 32 then 0 else l.rootEnt * 32 / 512) + (clus - 2) * l.secPerClus + j / 512;
      0 <= s < fat.disk.Length && buff[j] == fat.disk[s][j % 512]
  {
    StartsInside(fat.g, l, clus);
    forall j | 0 <= j < l.ClusBytes() { SectorsAt(fat.disk[..], l.First(fat.g, clus), l.secPerClus, j); }
    var bsec: nat := l.First(fat.g, clus);
    var sec, o := 0, 0;
    while sec < l.secPerClus
      invariant sec <= l.secPerClus && o == sec * SECTOR && fat.Valid()
      invariant buff[..o] == Sectors(fat.disk[..], bsec, sec)
    {
      fat.ReadSector(bsec + sec);
      CopySector(fat.buffer, buff, o);
      sec, o := sec + 1, o + SECTOR;
    }
  }

  method CopySector(src: array<byte>, dst: array<byte>, o: nat)
    requires src.Length == SECTOR && o + SECTOR <= dst.Length && src != dst
    modifies dst
    ensures dst[..o + SECTOR] == old(dst[..o]) + src[..]
  {
    forall i | 0 <= i < SECTOR {
      dst[o + i] := src[i];
    }
  }

  method CopyBytes(src: array<byte>, from: nat, dst: array<byte>, to: nat, n: nat)
    requires src != dst && from + n <= src.Length && to + n <= dst.Length
    modifies dst
    ensures dst[..to + n] == old(dst[..to]) + src[from..from + n] && dst[to + n..] == old(dst[to + n..])
  {
    forall i | 0 <= i < n {
      dst[to + i] := src[from + i];
    }
  }

  /** How a read comes out: refused with -1, with `n` bytes, or running on past the end of
      the file, because the sum of position and length wrapped. */
  datatype Outcome = Refused | Done(n: nat) | Overrun

  /** kernel/fat.c `Fat_read`. */
  method FatRead(fat: Fat, l: Layout, file: FileDes, ptr: array<byte>, len: nat, ghost ch: seq<nat>) returns (r: Outcome)
    requires Mounted(fat, l, ch) && file.nodebytes == l.ClusBytes() && file.InPlace(ch)
    requires len < TWO32 && (file.offset + len <= file.length ==> len <= ptr.Length) && ptr != fat.buffer
    modifies fat`lastAccess, fat.buffer, ptr, file`offset, file`curnode
    ensures r.Overrun? <==> old(file.offset) + len >= TWO32
    ensures !r.Overrun? ==> Mounted(fat, l, ch) && file.InPlace(ch)
    ensures r.Refused? <==> file.length < old(file.offset) + len < TWO32
    ensures r.Refused? ==> file.offset == old(file.offset) && ptr[..] == old(ptr[..])
    ensures r.Done? ==>
      && r.n == len <= ptr.Length && file.offset == old(file.offset) + len
      && ptr[..len] == Part(fat.g, l, fat.disk[..], ch, old(file.offset), file.offset) && ptr[len..] == old(ptr[len..])
  {
    hide Mounted, AllOnDisk, Part, NodeIndex, Layout.ClusBytes, FileDes.InPlace;
    InsideFile(file, ch);
    if (file.offset + len) % TWO32 > file.length {
      return Refused;
    }
    if file.offset + len >= TWO32 {
      return Overrun;
    }
    ReadLoop(fat, l, file, ptr, len, ch);
    r := Done(len);
  }

  /** Lines 457-469: pass by pass until nothing is left. */
  method ReadLoop(fat: Fat, l: Layout, file: FileDes, ptr: array<byte>, len: nat, ghost ch: seq<nat>)
    requires Mounted(fat, l, ch) && file.nodebytes == l.ClusBytes() && file.InPlace(ch)
    requires file.offset + len <= file.length && len <= ptr.Length && ptr != fat.buffer
    modifies fat`lastAccess, fat.buffer, ptr, file`offset, file`curnode
    ensures Mounted(fat, l, ch) && file.InPlace(ch) && file.offset == old(file.offset) + len
    ensures ptr[..len] == Part(fat.g, l, fat.disk[..], ch, old(file.offset), file.offset) && ptr[len..] == old(ptr[len..])
  {
    hide Mounted, AllOnDisk, Part, NodeIndex, Layout.ClusBytes, FileDes.InPlace;
    ghost var off0 := file.offset;
    var left: nat, readlen: nat := len, 0;
    var buff := NewBuffer(l.ClusBytes());
    InsideFile(file, ch);
    NothingRead(fat, l, ch, off0);
    while left > 0
      invariant Mounted(fat, l, ch) && file.InPlace(ch) && AllOnDisk(fat.g, l, fat.disk[..], ch)
      invariant readlen + left == len && file.offset == off0 + readlen
      invariant ptr[..readlen] == Part(fat.g, l, fat.disk[..], ch, off0, off0 + readlen) && ptr[len..] == old(ptr[len..])
    {
      var c := Pass(fat, l, file, buff, ptr, readlen, left, len, ch);
      PartMore(fat.g, l, fat.disk[..], ch, off0, off0 + readlen, file.offset);
      readlen := readlen + c;
      left := left - c;
    }
  }

  lemma InsideFile(file: FileDes, ch: seq<nat>)
    requires file.InPlace(ch)
    ensures file.offset <= file.length <= |ch| * file.nodebytes && file.length < TWO32
  {
  }

  lemma NothingRead(fat: Fat, l: Layout, ch: seq<nat>, p: nat)
    requires Mounted(fat, l, ch) && p <= |ch| * l.ClusBytes()
    ensures AllOnDisk(fat.g, l, fat.disk[..], ch) && Part(fat.g, l, fat.disk[..], ch, p, p) == []
  {
    PartMore(fat.g, l, fat.disk[..], ch, p, p, p);
  }

  /** One pass of the loop of `Fat_read`. */
  method Pass(fat: Fat, l: Layout, file: FileDes, buff: array<byte>, ptr: array<byte>, readlen: nat, left: nat, len: nat,
              ghost ch: seq<nat>)
    returns (c: nat)
    requires Mounted(fat, l, ch) && file.nodebytes == l.ClusBytes() && file.InPlace(ch)
    requires 0 < left && file.offset + left <= file.length && readlen + left == len <= ptr.Length
    requires buff.Length == l.ClusBytes() && buff != fat.buffer && ptr != fat.buffer && buff != ptr
    modifies fat`lastAccess, fat.buffer, buff, ptr, file`offset, file`curnode
    ensures Mounted(fat, l, ch) && AllOnDisk(fat.g, l, fat.disk[..], ch) && file.InPlace(ch)
    ensures 0 < c <= left && file.offset == old(file.offset) + c
    ensures ptr[..readlen + c] == old(ptr[..readlen]) + Part(fat.g, l, fat.disk[..], ch, old(file.offset), file.offset)
    ensures ptr[len..] == old(ptr[len..])
  {
    hide Chain, AllOnDisk, Part, ClusData, NodeIndex, Layout.ClusBytes, Table, OnePiece, Entered;
    PositiveBytes(fat, l, ch);
    Enter(fat, l, file, ch);
    var rest := l.ClusBytes() - file.offset % l.ClusBytes();
    c := if rest < left then rest else left;
    PieceFits(file.offset, c, |ch|, l.ClusBytes());
    Piece(fat, l, file, buff, ptr, readlen, c, ch);
    IndexInside(file.offset, c, file.nodebytes);
    EnteredIs(file.offset, file.curnode, ch, l.ClusBytes());
    file.offset := file.offset + c;
  }

  lemma EnteredIs(offset: nat, curnode: nat, ch: seq<nat>, cb: nat)
    requires Entered(offset, curnode, ch, cb)
    ensures cb > 0 && offset / cb < |ch| && curnode == ch[offset / cb]
  {
  }

  method NewBuffer(n: nat) returns (buff: array<byte>)
    ensures fresh(buff) && buff.Length == n
  {
    buff := new byte[n];
  }

  lemma PositiveBytes(fat: Fat, l: Layout, ch: seq<nat>)
    requires Mounted(fat, l, ch)
    ensures l.ClusBytes() > 0
  {
  }

  lemma PieceFits(offset: nat, c: nat, n: nat, cb: nat)
    requires cb > 0 && 0 < c <= cb - offset % cb && offset + c <= n * cb
    ensures OnePiece(offset, c, n, cb)
  {
  }

  /** Up to the end of its cluster a position stays with it. */
  lemma IndexInside(p: nat, c: nat, cb: nat)
    requires cb > 0 && 0 < c <= cb - p % cb
    ensures NodeIndex(p + c, cb) == p / cb
  {
    Split(p, cb);
    Quotient(p / cb, p % cb + c - 1, cb);
  }

  /** Lines 458-460: from the cluster of the last byte to the one of the next. */
  method Enter(fat: Fat, l: Layout, file: FileDes, ghost ch: seq<nat>)
    requires Mounted(fat, l, ch) && file.nodebytes == l.ClusBytes() > 0 && file.InPlace(ch) && file.offset < file.length
    modifies fat`lastAccess, fat.buffer, file`curnode
    ensures Mounted(fat, l, ch) && Entered(file.offset, file.curnode, ch, l.ClusBytes())
  {
    hide Chain, AllOnDisk, NodeIndex, Table, Layout.ClusBytes;
    IndexAt(file.offset, l.ClusBytes());
    Inside(file.offset, |ch|, l.ClusBytes());
    if file.offset % l.ClusBytes() == 0 && file.offset > 0 {
      Stays(fat, ch, NodeIndex(file.offset, l.ClusBytes()));
      file.curnode := Next(fat, file.curnode);
    }
  }

  /** Lines 462-465: the cluster is read and a piece of it copied out. */
  method Piece(fat: Fat, l: Layout, file: FileDes, buff: array<byte>, ptr: array<byte>, at: nat, c: nat, ghost ch: seq<nat>)
    requires Mounted(fat, l, ch) && OnePiece(file.offset, c, |ch|, l.ClusBytes())
    requires Entered(file.offset, file.curnode, ch, l.ClusBytes()) && at + c <= ptr.Length
    requires buff.Length == l.ClusBytes() && buff != fat.buffer && ptr != fat.buffer && buff != ptr
    modifies fat`lastAccess, fat.buffer, buff, ptr
    ensures Mounted(fat, l, ch)
    ensures ptr[..at + c] == old(ptr[..at]) + Part(fat.g, l, fat.disk[..], ch, file.offset, file.offset + c)
    ensures ptr[at + c..] == old(ptr[at + c..])
  {
    hide Chain, Part, ClusData, Table, Layout.ClusBytes, AllOnDisk;
    PieceIs(fat.g, l, fat.disk[..], ch, file.offset, c, file.curnode);
    ReadClus(fat, l, file.curnode, buff);
    CopyBytes(buff, file.offset % l.ClusBytes(), ptr, at, c);
  }

  lemma Stays(fat: Fat, ch: seq<nat>, i: nat)
    requires fat.Valid() && Chain(fat.g, Table(fat.g, fat.disk[..]), ch) && i < |ch|
    ensures Readable(fat.g, ch[i]) && fat.g.Holds(ch[i]) && ch[i] < |Table(fat.g, fat.disk[..])|
    ensures i + 1 < |ch| ==> Table(fat.g, fat.disk[..])[ch[i]] == ch[i + 1]
  {
    LinkFacts(fat.g, Table(fat.g, fat.disk[..]), ch, i);
  }

  /** kernel/file.c `file_read`: as much as the file has, exactly if position and length have
      a sum of 32 bits. */
  method FileRead(fat: Fat, l: Layout, file: FileDes, ptr: array<byte>, len: nat, ghost ch: seq<nat>) returns (r: Outcome)
    requires Mounted(fat, l, ch) && file.nodebytes == l.ClusBytes() && file.InPlace(ch)
    requires len < TWO32 && Min(len, file.length - file.offset) <= ptr.Length && ptr != fat.buffer
    modifies fat`lastAccess, fat.buffer, ptr, file`offset, file`curnode
    ensures if old(file.offset) + len >= TWO32 then r == Overrun else r == Done(Min(len, file.length - old(file.offset)))
    ensures r.Done? ==>
      && Mounted(fat, l, ch) && file.InPlace(ch) && file.offset == old(file.offset) + r.n && r.n <= ptr.Length
      && ptr[..r.n] == Part(fat.g, l, fat.disk[..], ch, old(file.offset), file.offset) && ptr[r.n..] == old(ptr[r.n..])
  {
    hide Mounted, Part, Layout.ClusBytes, FileDes.InPlace;
    InsideFile(file, ch);
    var n := len;
    if (len + file.offset) % TWO32 > file.length {
      n := file.length - file.offset;
    }
    r := FatRead(fat, l, file, ptr, n, ch);
  }

  function Sum(lens: seq<nat>): nat {
    if lens == [] then 0 else Sum(lens[..|lens| - 1]) + lens[|lens| - 1]
  }

  /** All of the reads have sums of 32 bits. */
  predicate NoneWraps(offset: nat, length: nat, lens: seq<nat>)
    requires offset <= length
  {
    forall i :: 0 <= i < |lens| ==> Min(offset + Sum(lens[..i]), length) + lens[i] < TWO32
  }

  /** Reading in any pieces gives the bytes that reading at once gives. */
  method ReadPieces(fat: Fat, l: Layout, file: FileDes, lens: seq<nat>, ghost ch: seq<nat>) returns (bytes: Option<seq<byte>>)
    requires Mounted(fat, l, ch) && file.nodebytes == l.ClusBytes() && file.InPlace(ch)
    requires file.offset <= file.length && forall i :: 0 <= i < |lens| ==> lens[i] < TWO32
    modifies fat`lastAccess, fat.buffer, file`offset, file`curnode
    ensures bytes.Some? <==> NoneWraps(old(file.offset), file.length, lens)
    ensures bytes.Some? ==>
      && Mounted(fat, l, ch) && file.InPlace(ch)
      && file.offset == Min(old(file.offset) + Sum(lens), file.length)
      && bytes.value == Part(fat.g, l, fat.disk[..], ch, old(file.offset), Min(old(file.offset) + Sum(lens), file.length))
  {
    hide Mounted, Part, Layout.ClusBytes, AllOnDisk, FileDes.InPlace, Sum;
    ghost var off0 := file.offset;
    var got: seq<byte> := [];
    SumNone(lens);
    InsideFile(file, ch);
    NothingRead(fat, l, ch, off0);
    for i := 0 to |lens|
      invariant Mounted(fat, l, ch) && file.InPlace(ch) && AllOnDisk(fat.g, l, fat.disk[..], ch)
      invariant file.offset == Min(off0 + Sum(lens[..i]), file.length)
      invariant got == Part(fat.g, l, fat.disk[..], ch, off0, file.offset)
      invariant forall k :: 0 <= k < i ==> Min(off0 + Sum(lens[..k]), file.length) + lens[k] < TWO32
    {
      ghost var off1 := file.offset;
      SumMore(lens, i);
      var r := ReadPiece(fat, l, file, lens[i], ch);
      if r.None? {
        return None;
      }
      got := got + r.value;
      InsideFile(file, ch);
      PartMore(fat.g, l, fat.disk[..], ch, off0, off1, file.offset);
    }
    assert lens[..|lens|] == lens;
    bytes := Some(got);
  }

  lemma SumNone(lens: seq<nat>)
    ensures Sum(lens[..0]) == 0
  {
  }

  lemma SumMore(lens: seq<nat>, i: nat)
    requires i < |lens|
    ensures Sum(lens[..i + 1]) == Sum(lens[..i]) + lens[i]
  {
    assert lens[..i + 1][..i] == lens[..i];
  }

  /** One piece into a buffer of its own. */
  method ReadPiece(fat: Fat, l: Layout, file: FileDes, len: nat, ghost ch: seq<nat>) returns (bytes: Option<seq<byte>>)
    requires Mounted(fat, l, ch) && file.nodebytes == l.ClusBytes() && file.InPlace(ch) && len < TWO32 && file.offset <= file.length
    modifies fat`lastAccess, fat.buffer, file`offset, file`curnode
    ensures bytes.None? <==> old(file.offset) + len >= TWO32
    ensures bytes.Some? ==>
      && Mounted(fat, l, ch) && AllOnDisk(fat.g, l, fat.disk[..], ch) && file.InPlace(ch)
      && old(file.offset) <= file.offset == Min(old(file.offset) + len, file.length)
      && bytes.value == Part(fat.g, l, fat.disk[..], ch, old(file.offset), file.offset)
  {
    hide Mounted, Part, Layout.ClusBytes, AllOnDisk, FileDes.InPlace;
    var ptr := NewBuffer(len);
    var r := FileRead(fat, l, file, ptr, len, ch);
    if r.Overrun? {
      return None;
    }
    MountedOnDisk(fat, l, ch);
    bytes := Some(ptr[..r.n]);
  }

  lemma MountedOnDisk(fat: Fat, l: Layout, ch: seq<nat>)
    requires Mounted(fat, l, ch)
    ensures AllOnDisk(fat.g, l, fat.disk[..], ch) && fat.Valid()
    ensures (ch != [] ==> Chain(fat.g, Table(fat.g, fat.disk[..]), ch)) && l.ClusBytes() > 0
  {
  }

  lemma StillMounted(fat: Fat, l: Layout, ch: seq<nat>)
    requires fat.Valid() && AllOnDisk(fat.g, l, fat.disk[..], ch) && Chain(fat.g, Table(fat.g, fat.disk[..]), ch)
    ensures Mounted(fat, l, ch)
  {
  }

  datatype Whence = SeekSet | SeekCur | SeekEnd

  /** Where a seek starts to count clusters. */
  ghost function From(file: FileDes, whence: Whence): nat
    requires file.nodebytes > 0
    reads file
  {
    if whence.SeekSet? then 0 else NodeIndex(file.offset, file.nodebytes)
  }

  /** The clusters a seek moves by. */
  function Distance(file: FileDes, whence: Whence, target: nat): int
    requires file.nodebytes > 0
    reads file
  {
    target / file.nodebytes - (if whence.SeekSet? then 0 else file.offset / file.nodebytes)
  }

  function Base(file: FileDes, whence: Whence): nat
    reads file
  {
    match whence
    case SeekSet => 0
    case SeekCur => file.offset
    case SeekEnd => file.length
  }

  /** kernel/file.c `file_lseek`, to clusters that the file has. The position is right
      afterwards exactly if the target is as much at a cluster border as the place the
      clusters were counted from, which for SEEK_SET is the start of the file. */
  method FileLseek(fat: Fat, l: Layout, file: FileDes, offset: int, whence: Whence, ghost ch: seq<nat>) returns (r: int)
    requires Mounted(fat, l, ch) && file.nodebytes == l.ClusBytes() && file.InPlace(ch) && ch != []
    requires var target := S32(Base(file, whence) + offset);
      target >= 0 ==>
        && From(file, whence) + Distance(file, whence, target) < |ch|
        && (Distance(file, whence, target) < 0 ==>
              && OnePredecessor(fat.g, Table(fat.g, fat.disk[..]))
              && SeekScans(fat.g, ch, From(file, whence), From(file, whence) + Distance(file, whence, target)))
        && (From(file, whence) + Distance(file, whence, target) == -1 ==> CanScan(fat.g, fat.disk[..], ch[0]))
    modifies fat`lastAccess, fat.buffer, file`offset, file`curnode, file`length
    ensures Mounted(fat, l, ch)
    ensures whence.SeekSet? ==> r == if S32(offset) < 0 then -1 else S32(offset)
    ensures whence.SeekCur? ==> r == if S32(old(file.offset) + offset) < 0 then -1 else S32(old(file.offset) + offset)
    ensures whence.SeekEnd? ==> r == if S32(old(file.length) + offset) < 0 then -1 else S32(old(file.length) + offset)
    ensures r == -1 ==> file.offset == old(file.offset) && file.curnode == old(file.curnode) && file.length == old(file.length)
    ensures r >= 0 ==>
      && file.offset == r && file.length == (if r > old(file.length) then r else old(file.length))
      && (file.InPlace(ch) <==>
            (AtBorder(r, file.nodebytes) <==> !whence.SeekSet? && AtBorder(old(file.offset), file.nodebytes)))
  {
    hide Mounted, NodeIndex, Layout.ClusBytes, OnePredecessor, Chain, Table, AllOnDisk, CanScan, SeekScans, ClusterAt, AtBorder, S32;
    MountedOnDisk(fat, l, ch);
    SignedRange(Base(file, whence) + offset);
    var target := S32(Base(file, whence) + offset);
    if target < 0 {
      return -1;
    }
    ghost var k, len0 := From(file, whence), file.length;
    var d := Distance(file, whence, target);
    IndexAt(0, file.nodebytes);
    var start := if whence.SeekSet? then file.startnode else file.curnode;
    SeekIndex(file.offset, target, len0, whence.SeekSet?, |ch|, file.nodebytes);
    var node := FatSeek(fat, start, d, ch, k);
    StillMounted(fat, l, ch);
    Reached(fat.g, fat.disk[..], ch, k + d, node.value, NodeIndex(target, file.nodebytes));
    file.curnode := node.value;
    file.offset := target;
    if file.offset > file.length {
      file.length := file.offset;
    }
    r := target;
  }

  lemma SignedRange(x: int)
    ensures -0x8000_0000 <= S32(x) < 0x8000_0000
  {
  }

  /** Two moves from the position are one, and none at all answers it. */
  lemma SeeksCompose(position: nat, a: int, b: int)
    requires position < 0x8000_0000
    ensures S32(position + 0) == position && S32(S32(position + a) + b) == S32(position + (a + b))
  {
    var q := (position + a) / TWO32;
    assert S32(position + a) + b == position + a + b - TWO32 * q || S32(position + a) + b == position + a + b - TWO32 * (q + 1);
    Turns(position + a + b, q);
    Turns(position + a + b, q + 1);
  }

  lemma Turns(x: int, q: int)
    ensures (x - TWO32 * q) % TWO32 == x % TWO32
  {
  }

  /** The cluster at index `i` is the one wanted exactly if it is the index wanted. */
  lemma Reached(g: Geometry, d: Disk, ch: seq<nat>, i: int, node: nat, want: nat)
    requires g.Valid() && DiskOk(g, d) && Chain(g, Table(g, d), ch) && |ch| > 0 && -1 <= i < |ch| && (i == -1 ==> want == 0)
    requires node == ClusterAt(g, d, ch, i)
    ensures want < |ch| && node == ch[want] <==> i == want
  {
    hide Chain, Table, Before;
    BeforeFirst(g, d, ch);
    Apart(g, Table(g, d), ch);
  }

  lemma Apart(g: Geometry, t: seq<nat>, ch: seq<nat>)
    requires g.Valid() && Chain(g, t, ch)
    ensures forall i, j :: 0 <= i < j < |ch| ==> ch[i] != ch[j]
  {
  }

  /** The cluster counted to is the right one exactly under the condition of `FileLseek`.
      From a cluster border to the first cluster the count goes one too far back, to -1. */
  lemma SeekIndex(offset: nat, target: nat, length: nat, fromStart: bool, n: nat, cb: nat)
    requires cb > 0 && offset <= length <= n * cb && NodeIndex(offset, cb) < n
    requires (if fromStart then target / cb else NodeIndex(offset, cb) + target / cb - offset / cb) < n
    ensures var i := if fromStart then target / cb else NodeIndex(offset, cb) + target / cb - offset / cb;
      && i >= -1 && (i == -1 <==> !fromStart && AtBorder(offset, cb) && target < cb) && (i == -1 ==> NodeIndex(target, cb) == 0)
      && (i == NodeIndex(target, cb) <==> (AtBorder(target, cb) <==> !fromStart && AtBorder(offset, cb)))
      && (i == NodeIndex(target, cb) ==> target <= n * cb)
  {
    hide NodeIndex;
    IndexAt(offset, cb);
    IndexAt(target, cb);
    FirstOnly(target, cb);
    if target / cb < n || (AtBorder(target, cb) && target / cb <= n) { InFile(target, n, cb); }
  }

  lemma FirstOnly(target: nat, cb: nat)
    requires cb > 0
    ensures 0 <= target / cb && (target / cb == 0 <==> target < cb) && (target < cb ==> !AtBorder(target, cb))
  {
    Split(target, cb);
    if target < cb { Quotient(0, target, cb); } else { Times(target / cb, 0, cb); }
  }

  lemma InFile(target: nat, n: nat, cb: nat)
    requires cb > 0 && (target / cb < n || (target % cb == 0 && target / cb <= n))
    ensures target <= n * cb
  {
    Split(target, cb);
    Times(target / cb + 1, n, cb);
    Times(target / cb, n, cb);
  }
}
