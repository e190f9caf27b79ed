/** kernel/memory.c `umemcpy`: a copy between two address spaces, piece by piece through
    windows onto their frames. */
module UserCopy {
  import opened Basics
  import opened Paging
  import AddressSpaces

  const WINDOWS := 32          // bits of MTMAP set at boot
  const DIRSPAN := 0x400000    // bytes under one directory entry
  const TOP := 0x1_0000_0000

  // ---- translation

  function TableOf(m: seq<Page>, pde: nat, va: nat): nat
    requires IsTable(m, pde) && va < TOP
  {
    m[pde].entries[va / DIRSPAN].base
  }

  ghost predicate Mapped(m: seq<Page>, pde: nat, va: nat) {
    va < TOP && IsTable(m, pde) && IsTable(m, TableOf(m, pde, va))
    && IsData(m, m[TableOf(m, pde, va)].entries[va / PAGESIZE % ENTRIES].base)
  }

  /** The frame that an address lies in. */
  function Frame(m: seq<Page>, pde: nat, va: nat): nat
    requires Mapped(m, pde, va)
  {
    m[TableOf(m, pde, va)].entries[va / PAGESIZE % ENTRIES].base
  }

  ghost predicate AllMapped(m: seq<Page>, pde: nat, va: nat, n: nat) {
    forall k :: va <= k < va + n ==> Mapped(m, pde, k)
  }

  function ByteOf(m: seq<Page>, pde: nat, va: nat): byte
    requires Mapped(m, pde, va)
  {
    m[Frame(m, pde, va)].bytes[va % PAGESIZE]
  }

  function SetByte(m: seq<Page>, f: nat, o: nat, v: byte): (r: seq<Page>)
    requires IsData(m, f) && o < PAGESIZE
    ensures |r| == |m| && IsData(r, f)
  {
    m[f := Bytes(m[f].bytes[o := v])]
  }

  /** Only bytes of data frames differ. */
  ghost predicate SameShape(m: seq<Page>, m': seq<Page>) {
    |m'| == |m| && forall f :: 0 <= f < |m| ==> (m[f].Table? ==> m'[f] == m[f]) && (IsData(m, f) ==> IsData(m', f))
  }

  lemma ShapeMapped(m: seq<Page>, m': seq<Page>, pde: nat, va: nat)
    requires SameShape(m, m') && Mapped(m, pde, va)
    ensures Mapped(m', pde, va) && Frame(m', pde, va) == Frame(m, pde, va)
  {
  }

  /** The copy as one would write it down: one byte after the other, each through the
      page tables. */
  ghost function Copied(m: seq<Page>, dpde: nat, dest: nat, spde: nat, src: nat, n: nat): (r: seq<Page>)
    requires AllMapped(m, dpde, dest, n) && AllMapped(m, spde, src, n)
    ensures SameShape(m, r)
    decreases n
  {
    if n == 0 then m
    else
      var c := Copied(m, dpde, dest, spde, src, n - 1);
      ShapeMapped(m, c, dpde, dest + n - 1);
      ShapeMapped(m, c, spde, src + n - 1);
      SetByte(c, Frame(c, dpde, dest + n - 1), (dest + n - 1) % PAGESIZE, ByteOf(c, spde, src + n - 1))
  }

  /** Within a page an address and the ones behind it share the frame. */
  lemma InOnePage(m: seq<Page>, pde: nat, va: nat, c: nat)
    requires AllMapped(m, pde, va, c) && 0 < c <= PAGESIZE - va % PAGESIZE
    ensures forall a :: va <= a < va + c ==> a % PAGESIZE == va % PAGESIZE + (a - va) && Frame(m, pde, a) == Frame(m, pde, va)
  {
    assert Mapped(m, pde, va);
    forall a | va <= a < va + c
      ensures a % PAGESIZE == va % PAGESIZE + (a - va) && Frame(m, pde, a) == Frame(m, pde, va)
    {
      assert Mapped(m, pde, a);
      SamePage(va, a);
    }
  }

  lemma SamePage(va: nat, a: nat)
    requires va <= a < va + (PAGESIZE - va % PAGESIZE)
    ensures a % PAGESIZE == va % PAGESIZE + (a - va) && a / PAGESIZE == va / PAGESIZE && a / DIRSPAN == va / DIRSPAN
  {
    assert a / DIRSPAN == a / PAGESIZE / ENTRIES && va / DIRSPAN == va / PAGESIZE / ENTRIES;
  }

  /** The windows that are free. */
  ghost function FreeSet(avail: seq<bool>): set<int> {
    set i | 0 <= i < |avail| && avail[i]
  }

  lemma TakeOne(avail: seq<bool>, i: nat)
    requires i < |avail| && avail[i]
    ensures |FreeSet(avail[i := false])| == |FreeSet(avail)| - 1
  {
    assert FreeSet(avail) == FreeSet(avail[i := false]) + {i};
  }

  lemma GiveOne(avail: seq<bool>, i: nat)
    requires i < |avail| && !avail[i]
    ensures |FreeSet(avail[i := true])| == |FreeSet(avail)| + 1
  {
    assert FreeSet(avail[i := true]) == FreeSet(avail) + {i};
  }

  lemma AnyFree(avail: seq<bool>)
    requires |FreeSet(avail)| > 0
    ensures exists i :: 0 <= i < |avail| && avail[i]
  {
    var i :| i in FreeSet(avail);
  }

  /** Where `memcpy` reads or writes: in a window, or at an address of the running process. */
  datatype Ptr = Window(i: nat, off: nat) | User(va: nat)

  class Mapper {
    const frames: array<Page>
    const avail: array<bool>     // MTMAP: the window is free
    const base: array<nat>       // TMPMAP[..].base
    const pdes: seq<nat>         // the directory of each process
    const curpid: nat

    ghost predicate Valid()
      reads avail, base
    {
      avail.Length == base.Length == WINDOWS && curpid < |pdes|
    }

    constructor (memory: seq<Page>, pdes: seq<nat>, curpid: nat)
      requires curpid < |pdes|
      ensures Valid() && frames[..] == memory && this.pdes == pdes && this.curpid == curpid
      ensures fresh(frames) && fresh(avail) && fresh(base) && forall i :: 0 <= i < WINDOWS ==> avail[i]
    {
      frames := new Page[|memory|](i requires 0 <= i < |memory| => memory[i]);
      avail := new bool[WINDOWS](_ => true);
      base := new nat[WINDOWS](_ => 0);
      this.pdes := pdes;
      this.curpid := curpid;
    }

    /** kernel/memory.c `mappage`: the first free window. */
    method MapPage(page: nat) returns (i: nat)
      requires Valid() && |FreeSet(avail[..])| > 0
      modifies avail, base
      ensures Valid() && i < WINDOWS && old(avail[i]) && (forall j :: 0 <= j < i ==> !old(avail[j]))
      ensures avail[..] == old(avail[..])[i := false] && base[..] == old(base[..])[i := page]
      ensures |FreeSet(avail[..])| == |FreeSet(old(avail[..]))| - 1
    {
      AnyFree(avail[..]);
      i := 0;
      while !avail[i]
        invariant i < WINDOWS && forall j :: 0 <= j < i ==> !avail[j]
        decreases WINDOWS - i
      {
        i := i + 1;
      }
      TakeOne(avail[..], i);
      avail[i] := false;
      base[i] := page;
    }

    /** kernel/memory.c `unmappage`. */
    method UnmapPage(i: nat)
      requires Valid() && i < WINDOWS
      modifies avail, base
      ensures Valid() && avail[..] == old(avail[..])[i := true]
      ensures base[..] == if old(avail[i]) then old(base[..]) else old(base[..])[i := 0]
      ensures !old(avail[i]) ==> |FreeSet(avail[..])| == |FreeSet(old(avail[..]))| + 1
    {
      if !avail[i] {
        GiveOne(avail[..], i);
        avail[i] := true;
        base[i] := 0;
      }
    }

    /** The pointer means `n` bytes of process memory from `va` on. */
    ghost predicate Points(p: Ptr, m: seq<Page>, pde: nat, va: nat, n: nat)
      requires Valid() && AllMapped(m, pde, va, n)
      reads avail, base
    {
      match p
      case Window(i, off) => i < WINDOWS && forall a :: va <= a < va + n ==> base[i] == Frame(m, pde, a) && a % PAGESIZE == off + (a - va)
      case User(u) => u == va && pde == pdes[curpid]
    }

    lemma InWindow(p: Ptr, m: seq<Page>, pde: nat, va: nat, n: nat)
      requires Valid() && AllMapped(m, pde, va, n) && 0 < n <= PAGESIZE - va % PAGESIZE
      requires p.Window? && p.i < WINDOWS && p.off == va % PAGESIZE && Mapped(m, pde, va) && base[p.i] == Frame(m, pde, va)
      ensures Points(p, m, pde, va, n)
    {
      InOnePage(m, pde, va, n);
    }

    lemma InUser(m: seq<Page>, pde: nat, va: nat, n: nat)
      requires Valid() && AllMapped(m, pde, va, n) && pde == pdes[curpid]
      ensures Points(User(va), m, pde, va, n)
    {
    }

    /** Frame and offset of byte `j`; an address of the process goes through its tables. */
    function Resolve(p: Ptr, j: nat): (r: (nat, nat))
      requires Valid() && (p.Window? ==> p.i < WINDOWS) && (p.User? ==> Mapped(frames[..], pdes[curpid], p.va + j))
      reads this, frames, avail, base
    {
      match p
      case Window(i, off) => (base[i], off + j)
      case User(u) => (Frame(frames[..], pdes[curpid], u + j), (u + j) % PAGESIZE)
    }

    lemma Resolves(p: Ptr, m: seq<Page>, pde: nat, va: nat, n: nat, j: nat)
      requires Valid() && AllMapped(m, pde, va, n) && Points(p, m, pde, va, n) && SameShape(m, frames[..]) && j < n
      ensures (p.Window? ==> p.i < WINDOWS) && (p.User? ==> Mapped(frames[..], pdes[curpid], p.va + j))
      ensures Mapped(frames[..], pde, va + j)
      ensures Resolve(p, j) == (Frame(frames[..], pde, va + j), (va + j) % PAGESIZE)
    {
      assert Mapped(m, pde, va + j);
      ShapeMapped(m, frames[..], pde, va + j);
    }

    /** `memcpy` continues the copy of `m` after `done` bytes. */
    method MemCpy(dst: Ptr, src: Ptr, n: nat, ghost m: seq<Page>, ghost dpde: nat, ghost dest: nat, ghost spde: nat, ghost from: nat,
                  ghost done: nat)
      requires Valid() && AllMapped(m, dpde, dest, done + n) && AllMapped(m, spde, from, done + n)
      requires Points(dst, m, dpde, dest + done, n) && Points(src, m, spde, from + done, n)
      requires frames[..] == Copied(m, dpde, dest, spde, from, done)
      modifies frames
      ensures frames[..] == Copied(m, dpde, dest, spde, from, done + n)
    {
      hide Mapped, Frame, Points, SameShape, Copied;
      for j := 0 to n
        invariant frames[..] == Copied(m, dpde, dest, spde, from, done + j)
      {
        Resolves(dst, m, dpde, dest + done, n, j);
        Resolves(src, m, spde, from + done, n, j);
        var (sf, so) := Resolve(src, j);
        var (df, d) := Resolve(dst, j);
        NextByte(m, dpde, dest, spde, from, done + j);
        frames[df] := Bytes(frames[df].bytes[d := frames[sf].bytes[so]]);
      }
    }

    /** Lines 203-208: a window onto the frame of `va`, found through one onto its table. */
    method OpenPage(dir: nat, va: nat, ghost pde: nat) returns (buff: nat)
      requires Valid() && |FreeSet(avail[..])| >= 2 && dir < WINDOWS && !avail[dir] && base[dir] == pde
      requires Mapped(frames[..], pde, va)
      modifies avail, base
      ensures Valid() && buff < WINDOWS && old(avail[buff]) && avail[..] == old(avail[..])[buff := false]
      ensures base[buff] == Frame(frames[..], pde, va) && forall j :: 0 <= j < WINDOWS && !old(avail[j]) ==> base[j] == old(base[j])
      ensures |FreeSet(avail[..])| == |FreeSet(old(avail[..]))| - 1
    {
      var count, index := va / DIRSPAN, va / PAGESIZE % ENTRIES;
      var pte := MapPage(frames[base[dir]].entries[count].base);
      buff := MapPage(frames[base[pte]].entries[index].base);
      UnmapPage(pte);
    }

    /** Lines 200-218: into the running process. */
    method CopyIn(dest: nat, spid: nat, src: nat, len: nat)
      requires Valid() && spid < |pdes| && |FreeSet(avail[..])| >= 3
      requires AllMapped(frames[..], pdes[curpid], dest, len) && AllMapped(frames[..], pdes[spid], src, len)
      modifies frames, avail, base
      ensures Valid() && avail[..] == old(avail[..])
      ensures frames[..] == Copied(old(frames[..]), pdes[curpid], dest, pdes[spid], src, len)
    {
      hide Mapped, Frame, SameShape, FreeSet, Copied, Points;
      ghost var m, a := frames[..], avail[..];
      CopiedNone(m, pdes[curpid], dest, pdes[spid], src);
      var pde := MapPage(pdes[spid]);
      var done: nat := 0;
      while done < len
        invariant Valid() && done <= len && avail[..] == a[pde := false] && base[pde] == pdes[spid]
        invariant |FreeSet(avail[..])| >= 2 && frames[..] == Copied(m, pdes[curpid], dest, pdes[spid], src, done)
      {
        StillMapped(m, frames[..], pdes[curpid], dest, len, pdes[spid], src, done);
        var buff := OpenPage(pde, src + done, pdes[spid]);
        var cpc := Min(len - done, PAGESIZE - (src + done) % PAGESIZE);
        InWindow(Window(buff, (src + done) % PAGESIZE), m, pdes[spid], src + done, cpc);
        InUser(m, pdes[curpid], dest + done, cpc);
        MemCpy(User(dest + done), Window(buff, (src + done) % PAGESIZE), cpc, m, pdes[curpid], dest, pdes[spid], src, done);
        done := done + cpc;
        UnmapPage(buff);
      }
      UnmapPage(pde);
    }

    /** Lines 221-239: out of the running process. */
    method CopyOut(dpid: nat, dest: nat, src: nat, len: nat)
      requires Valid() && dpid < |pdes| && |FreeSet(avail[..])| >= 3
      requires AllMapped(frames[..], pdes[dpid], dest, len) && AllMapped(frames[..], pdes[curpid], src, len)
      modifies frames, avail, base
      ensures Valid() && avail[..] == old(avail[..])
      ensures frames[..] == Copied(old(frames[..]), pdes[dpid], dest, pdes[curpid], src, len)
    {
      hide Mapped, Frame, SameShape, FreeSet, Copied, Points;
      ghost var m, a := frames[..], avail[..];
      CopiedNone(m, pdes[dpid], dest, pdes[curpid], src);
      var pde := MapPage(pdes[dpid]);
      var done: nat := 0;
      while done < len
        invariant Valid() && done <= len && avail[..] == a[pde := false] && base[pde] == pdes[dpid]
        invariant |FreeSet(avail[..])| >= 2 && frames[..] == Copied(m, pdes[dpid], dest, pdes[curpid], src, done)
      {
        StillMapped(m, frames[..], pdes[dpid], dest, len, pdes[curpid], src, done);
        var buff := OpenPage(pde, dest + done, pdes[dpid]);
        var cpc := Min(len - done, PAGESIZE - (dest + done) % PAGESIZE);
        InWindow(Window(buff, (dest + done) % PAGESIZE), m, pdes[dpid], dest + done, cpc);
        InUser(m, pdes[curpid], src + done, cpc);
        MemCpy(Window(buff, (dest + done) % PAGESIZE), User(src + done), cpc, m, pdes[dpid], dest, pdes[curpid], src, done);
        done := done + cpc;
        UnmapPage(buff);
      }
      UnmapPage(pde);
    }

    /** Lines 242-270: between two processes neither of which is running. */
    method CopyAcross(dpid: nat, dest: nat, spid: nat, src: nat, len: nat)
      requires Valid() && dpid < |pdes| && spid < |pdes| && |FreeSet(avail[..])| >= 5
      requires AllMapped(frames[..], pdes[dpid], dest, len) && AllMapped(frames[..], pdes[spid], src, len)
      modifies frames, avail, base
      ensures Valid() && avail[..] == old(avail[..])
      ensures frames[..] == Copied(old(frames[..]), pdes[dpid], dest, pdes[spid], src, len)
    {
      hide Mapped, Frame, SameShape, FreeSet, Copied, Points;
      ghost var m, a := frames[..], avail[..];
      CopiedNone(m, pdes[dpid], dest, pdes[spid], src);
      var spde := MapPage(pdes[spid]);
      var dpde := MapPage(pdes[dpid]);
      var done: nat := 0;
      while done < len
        invariant Valid() && done <= len && avail[..] == a[spde := false][dpde := false]
        invariant base[spde] == pdes[spid] && base[dpde] == pdes[dpid]
        invariant |FreeSet(avail[..])| >= 3 && frames[..] == Copied(m, pdes[dpid], dest, pdes[spid], src, done)
      {
        StillMapped(m, frames[..], pdes[dpid], dest, len, pdes[spid], src, done);
        var sbuff := OpenPage(spde, src + done, pdes[spid]);
        var dbuff := OpenPage(dpde, dest + done, pdes[dpid]);
        var cpc := Min(len - done, PAGESIZE - (src + done) % PAGESIZE);
        cpc := Min(cpc, PAGESIZE - (dest + done) % PAGESIZE);
        InWindow(Window(sbuff, (src + done) % PAGESIZE), m, pdes[spid], src + done, cpc);
        InWindow(Window(dbuff, (dest + done) % PAGESIZE), m, pdes[dpid], dest + done, cpc);
        MemCpy(Window(dbuff, (dest + done) % PAGESIZE), Window(sbuff, (src + done) % PAGESIZE), cpc, m, pdes[dpid], dest, pdes[spid],
            src, done);
        done := done + cpc;
        UnmapPage(sbuff);
        UnmapPage(dbuff);
      }
      UnmapPage(spde);
      UnmapPage(dpde);
    }

    /** kernel/memory.c `umemcpy`: each of its three branches is the byte-by-byte copy, and
        all windows are free again that were. */
    method UMemCpy(dpid: nat, dest: nat, spid: nat, src: nat, len: nat)
      requires Valid() && dpid < |pdes| && spid < |pdes| && |FreeSet(avail[..])| >= 5
      requires AllMapped(frames[..], pdes[dpid], dest, len) && AllMapped(frames[..], pdes[spid], src, len)
      modifies frames, avail, base
      ensures Valid() && avail[..] == old(avail[..])
      ensures frames[..] == Copied(old(frames[..]), pdes[dpid], dest, pdes[spid], src, len)
    {
      hide Mapped, SameShape, Copied, FreeSet;
      if dpid == curpid {
        CopyIn(dest, spid, src, len);
      } else if spid == curpid {
        CopyOut(dpid, dest, src, len);
      } else {
        CopyAcross(dpid, dest, spid, src, len);
      }
    }
  }

  lemma CopiedNone(m: seq<Page>, dpde: nat, dest: nat, spde: nat, src: nat)
    ensures Copied(m, dpde, dest, spde, src, 0) == m
  {
  }

  /** The page tables are not touched by the copy. */
  lemma StillMapped(m: seq<Page>, m': seq<Page>, dpde: nat, dest: nat, len: nat, spde: nat, src: nat, done: nat)
    requires AllMapped(m, dpde, dest, len) && AllMapped(m, spde, src, len) && done < len
    requires m' == Copied(m, dpde, dest, spde, src, done)
    ensures Mapped(m', spde, src + done) && Frame(m', spde, src + done) == Frame(m, spde, src + done)
    ensures Mapped(m', dpde, dest + done) && Frame(m', dpde, dest + done) == Frame(m, dpde, dest + done)
  {
    assert Mapped(m, spde, src + done) && Mapped(m, dpde, dest + done);
    ShapeMapped(m, m', spde, src + done);
    ShapeMapped(m, m', dpde, dest + done);
  }

  lemma NextByte(m: seq<Page>, dpde: nat, dest: nat, spde: nat, src: nat, n: nat)
    requires AllMapped(m, dpde, dest, n + 1) && AllMapped(m, spde, src, n + 1)
    ensures var c := Copied(m, dpde, dest, spde, src, n);
      && Mapped(c, dpde, dest + n) && Mapped(c, spde, src + n)
      && IsData(c, Frame(c, dpde, dest + n)) && IsData(c, Frame(c, spde, src + n))
      && Copied(m, dpde, dest, spde, src, n + 1)
         == SetByte(c, Frame(c, dpde, dest + n), (dest + n) % PAGESIZE, ByteOf(c, spde, src + n))
  {
    hide Mapped, Frame, SameShape;
    var c := Copied(m, dpde, dest, spde, src, n);
    ShapeMapped(m, c, dpde, dest + n);
    ShapeMapped(m, c, spde, src + n);
    InFrame(c, dpde, dest + n);
    InFrame(c, spde, src + n);
  }

  lemma InFrame(m: seq<Page>, pde: nat, va: nat)
    requires Mapped(m, pde, va)
    ensures IsData(m, Frame(m, pde, va)) && va % PAGESIZE < PAGESIZE
  {
  }

  /** What the copy means when no byte of the source is overwritten and no byte of the
      destination written twice: the destination reads as the source did. */
  lemma {:induction false} CopiedReads(m: seq<Page>, dpde: nat, dest: nat, spde: nat, src: nat, n: nat, k: nat)
    requires AllMapped(m, dpde, dest, n) && AllMapped(m, spde, src, n) && k < n
    requires Apart(m, dpde, dest, spde, src, n)
    ensures Mapped(Copied(m, dpde, dest, spde, src, n), dpde, dest + k)
    ensures Mapped(m, spde, src + k) && ByteOf(Copied(m, dpde, dest, spde, src, n), dpde, dest + k) == ByteOf(m, spde, src + k)
    decreases n
  {
    hide Mapped, Frame, SameShape, Copied, ByteOf;
    var c := Copied(m, dpde, dest, spde, src, n - 1);
    assert Mapped(m, dpde, dest + k) && Mapped(m, spde, src + k) && Mapped(m, dpde, dest + n - 1);
    CopiedStep(m, dpde, dest, spde, src, n, dpde, dest + k);
    if k < n - 1 {
      assert Place(m, dpde, dest + k) != Place(m, dpde, dest + n - 1);
      CopiedReads(m, dpde, dest, spde, src, n - 1, k);
    } else {
      OthersStay(m, dpde, dest, spde, src, n - 1, spde, src + k);
    }
  }

  /** What one more byte changes for the reader of `va`. */
  lemma CopiedStep(m: seq<Page>, dpde: nat, dest: nat, spde: nat, src: nat, n: nat, pde: nat, va: nat)
    requires n > 0 && AllMapped(m, dpde, dest, n) && AllMapped(m, spde, src, n) && Mapped(m, pde, va)
    ensures Mapped(m, dpde, dest + n - 1) && Mapped(m, spde, src + n - 1)
    ensures var c, r := Copied(m, dpde, dest, spde, src, n - 1), Copied(m, dpde, dest, spde, src, n);
      && Mapped(c, pde, va) && Mapped(r, pde, va) && Mapped(c, spde, src + n - 1)
      && ByteOf(r, pde, va) ==
           (if Place(m, pde, va) == Place(m, dpde, dest + n - 1) then ByteOf(c, spde, src + n - 1) else ByteOf(c, pde, va))
  {
    var c, r := Copied(m, dpde, dest, spde, src, n - 1), Copied(m, dpde, dest, spde, src, n);
    assert Mapped(m, dpde, dest + n - 1) && Mapped(m, spde, src + n - 1);
    ShapeMapped(m, c, pde, va);
    ShapeMapped(m, r, pde, va);
    ShapeMapped(m, c, spde, src + n - 1);
    ShapeMapped(m, c, dpde, dest + n - 1);
  }

  /** The places written are different from each other and from those read. */
  ghost predicate Apart(m: seq<Page>, dpde: nat, dest: nat, spde: nat, src: nat, n: nat)
    requires AllMapped(m, dpde, dest, n) && AllMapped(m, spde, src, n)
  {
    && (forall a, b :: dest <= a < dest + n && dest <= b < dest + n && a != b ==> Place(m, dpde, a) != Place(m, dpde, b))
    && (forall a, b :: dest <= a < dest + n && src <= b < src + n ==> Place(m, dpde, a) != Place(m, spde, b))
  }

  /** Frame and offset of the byte at an address. */
  ghost function Place(m: seq<Page>, pde: nat, va: nat): (nat, nat)
    requires Mapped(m, pde, va)
  {
    (m[m[pde].entries[va / 0x400000].base].entries[va / 0x1000 % 0x400].base, va % 0x1000)
  }

  /** Bytes at other places stay, whoever reads them. */
  lemma {:induction false} OthersStay(m: seq<Page>, dpde: nat, dest: nat, spde: nat, src: nat, n: nat, pde: nat, va: nat)
    requires AllMapped(m, dpde, dest, n) && AllMapped(m, spde, src, n) && Mapped(m, pde, va)
    requires forall a :: dest <= a < dest + n ==> Place(m, dpde, a) != Place(m, pde, va)
    ensures Mapped(Copied(m, dpde, dest, spde, src, n), pde, va)
    ensures ByteOf(Copied(m, dpde, dest, spde, src, n), pde, va) == ByteOf(m, pde, va)
    decreases n
  {
    hide Mapped, Frame, SameShape, ByteOf;
    if n > 0 {
      OthersStay(m, dpde, dest, spde, src, n - 1, pde, va);
      CopiedStep(m, dpde, dest, spde, src, n, pde, va);
      assert Mapped(m, dpde, dest + n - 1) && Place(m, dpde, dest + n - 1) != Place(m, pde, va);
    }
  }

  /** The byte of the copy is the one the processor's translation finds. */
  lemma LoadIsByte(m: seq<Page>, pde: nat, va: nat)
    requires Mapped(m, pde, va) && AddressSpaces.Load(m, pde, va).Some?
    ensures AddressSpaces.Load(m, pde, va).value.v == ByteOf(m, pde, va)
  {
  }

  lemma LoadStays(m: seq<Page>, m': seq<Page>, pde: nat, va: nat)
    requires SameShape(m, m') && Mapped(m, pde, va) && AddressSpaces.Load(m, pde, va).Some?
    ensures Mapped(m', pde, va) && AddressSpaces.Load(m', pde, va).Some?
    ensures AddressSpaces.Load(m', pde, va).value.user == AddressSpaces.Load(m, pde, va).value.user
    ensures Place(m', pde, va) == Place(m, pde, va)
  {
  }

  /** After the copy any process reads at any address the byte of the source, if the place behind
      the address is one of the destination, and otherwise what it read before. */
  lemma CopyLoads(m: seq<Page>, dpde: nat, dest: nat, spde: nat, src: nat, n: nat, d: nat, x: nat)
    requires AllMapped(m, dpde, dest, n) && AllMapped(m, spde, src, n) && Apart(m, dpde, dest, spde, src, n)
    requires Mapped(m, d, x) && AddressSpaces.Load(m, d, x).Some?
    ensures var was, now := AddressSpaces.Load(m, d, x), AddressSpaces.Load(Copied(m, dpde, dest, spde, src, n), d, x);
      && now.Some? && now.value.user == was.value.user
      && (forall a :: dest <= a < dest + n && Place(m, dpde, a) == Place(m, d, x) ==>
            var from := AddressSpaces.Load(m, spde, src + (a - dest)); from.Some? ==> now.value.v == from.value.v)
      && ((forall a :: dest <= a < dest + n ==> Place(m, dpde, a) != Place(m, d, x)) ==> now == was)
  {
    hide Mapped, Frame, SameShape, Copied, ByteOf, AddressSpaces.Load, Place;
    var r := Copied(m, dpde, dest, spde, src, n);
    LoadStays(m, r, d, x);
    LoadIsByte(m, d, x);
    LoadIsByte(r, d, x);
    forall a | dest <= a < dest + n && Place(m, dpde, a) == Place(m, d, x) && AddressSpaces.Load(m, spde, src + (a - dest)).Some?
      ensures AddressSpaces.Load(r, d, x).value.v == AddressSpaces.Load(m, spde, src + (a - dest)).value.v
    {
      var k: nat := a - dest;
      assert Mapped(m, dpde, dest + k) && Mapped(m, spde, src + k);
      LoadIsByte(m, spde, src + k);
      CopiedReads(m, dpde, dest, spde, src, n, k);
      SamePlace(m, r, dpde, dest + k, d, x);
    }
    if forall a :: dest <= a < dest + n ==> Place(m, dpde, a) != Place(m, d, x) {
      OthersStay(m, dpde, dest, spde, src, n, d, x);
    }
  }

  /** Two addresses of one place read alike. */
  lemma SamePlace(m: seq<Page>, r: seq<Page>, p: nat, a: nat, q: nat, b: nat)
    requires SameShape(m, r) && Mapped(m, p, a) && Mapped(m, q, b) && Place(m, p, a) == Place(m, q, b)
    ensures Mapped(r, p, a) && Mapped(r, q, b) && ByteOf(r, p, a) == ByteOf(r, q, b)
  {
  }
}
