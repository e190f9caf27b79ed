/** A first process like the one kernel/init.c:188-203 makes, with one page of its own where
    that one has identity-mapped boot pages: a directory, one user table with the
    argument page and one more page, and one table with the kernel stack. */
module Boot {
  import opened Basics
  import opened Paging
  import opened PageShareList
  import opened SharedMemory
  import opened CowKernel
  import opened AddressSpaces
  import opened Fork
  import opened ForkCall
  import opened Fault
  import opened CowSystem

  const NONE := Pte(false, false, false, false, 0)

  /** A fresh user mapping, or a kernel one. */
  function Fresh(f: nat, us: bool): Pte {
    Pte(true, true, us, false, f)
  }

  function EmptyTable(): seq<Pte> {
    seq(ENTRIES, _ => NONE)
  }

  const DIR := RESPAGE
  const USER := RESPAGE + 1
  const PINF := RESPAGE + 2
  const CODE := RESPAGE + 3
  const LAST := RESPAGE + 4
  const STACK := RESPAGE + 5

  function BootDir(): Page {
    Table(EmptyTable()[USEPAGE := Fresh(USER, true)][USEENDP := Fresh(LAST, true)])
  }

  function BootUser(): Page {
    Table(EmptyTable()[0 := Fresh(PINF, true)][1 := Fresh(CODE, true)])
  }

  function BootLast(): Page {
    Table(EmptyTable()[USEENDP := Fresh(STACK, false)])
  }

  ghost predicate BootMem(m: seq<Page>) {
    && |m| == MAXPAGE && m[DIR] == BootDir() && m[USER] == BootUser() && m[LAST] == BootLast()
    && IsData(m, PINF) && m[CODE] == Bytes(seq(PAGESIZE, _ => 0)) && IsData(m, STACK)
  }

  ghost function BootRole(): map<nat, Role> {
    map[DIR := Dir(0), USER := Tab(0, USEPAGE), LAST := Tab(0, USEENDP)]
  }

  ghost function BootLocs(): set<Loc> {
    {Loc(USER, 0), Loc(USER, 1), Loc(LAST, USEENDP)}
  }

  lemma BootSharing(m: seq<Page>, mmap: seq<bool>)
    requires BootMem(m) && |mmap| == MAXPAGE && forall f :: 0 <= f <= STACK ==> !mmap[f]
    ensures Sharing(m, mmap, BootRole().Keys, BootLocs(), map[])
    ensures forall l :: l in BootLocs() ==> l.table in BootRole() && BootRole()[l.table].Tab?
  {
  }

  lemma BootSpaces(m: seq<Page>, st: seq<Status>, pde: seq<nat>)
    requires BootMem(m) && |st| == |pde| == MAX_PROCESS
    requires st[0] == Running && pde[0] == DIR && forall p :: 1 <= p < MAX_PROCESS ==> st[p] == Unuse
    ensures Spaces(m, BootRole(), BootLocs(), st, pde)
  {
  }

  lemma BootReads(m: seq<Page>)
    requires BootMem(m)
    ensures Read(m, DIR, USEPAGE, 0).Some? && Read(m, DIR, USEPAGE, 1).Some?
  {
  }

  lemma BootGone(m: seq<Page>, mmap: seq<bool>, f: nat)
    requires BootMem(m) && |mmap| == MAXPAGE && (forall g :: 0 <= g < MAXPAGE ==> (mmap[g] <==> g > STACK))
    requires Lost(mmap, m, BootRole(), BootLocs(), f)
    ensures f < RESPAGE
  {
    assert Maps(m, Loc(USER, 0), PINF) && Maps(m, Loc(USER, 1), CODE) && Maps(m, Loc(LAST, USEENDP), STACK);
    assert Loc(USER, 0) in BootLocs() && Loc(USER, 1) in BootLocs() && Loc(LAST, USEENDP) in BootLocs();
  }

  // ---- there is room to begin with

  lemma {:induction false} NoNeed(es: seq<Pte>, j: nat)
    requires forall q :: j <= q < |es| ==> !es[q].P
    ensures SlotNeed(es, j) == 0
    decreases |es| - j
  {
    if j < |es| { NoNeed(es, j + 1); }
  }

  lemma {:induction false} OneNeed(es: seq<Pte>, j: nat, at: nat)
    requires j <= at < |es| && es[at].P && forall q :: j <= q < |es| && q != at ==> !es[q].P
    ensures SlotNeed(es, j) == Kernel.SlotCost(es[at])
    decreases at - j
  {
    if j < at { OneNeed(es, j + 1, at); } else { NoNeed(es, j + 1); }
  }

  lemma {:induction false} NeedFrom(m: seq<Page>, i: nat)
    requires BootMem(m) && USEPAGE < i <= USEENDP
    ensures FrameNeed(m, DIR, i) == 1 && ShareNeed(m, DIR, i) == 3
    decreases USEENDP - i
  {
    if i < USEENDP {
      NeedFrom(m, i + 1);
    } else {
      OneNeed(m[LAST].entries, 0, USEENDP);
      assert FrameNeed(m, DIR, ENTRIES) == 0 && ShareNeed(m, DIR, ENTRIES) == 0;
    }
  }

  /** The first process can fork at once: five frames and six slots of the share list do. */
  lemma BootFits(m: seq<Page>, mmap: seq<bool>, psl: seq<Slot>)
    requires BootMem(m) && |mmap| == MAXPAGE && forall f :: 0 <= f < MAXPAGE ==> (mmap[f] <==> f > STACK)
    requires |psl| == MAX_SHRLC && forall i :: 0 <= i < |psl| ==> psl[i] == Slot(0, 0, 0)
    ensures FrameNeed(m, DIR, USEPAGE) == 3 && ShareNeed(m, DIR, USEPAGE) == 6
    ensures ForkFits(m, mmap, psl, DIR)
  {
    hide FrameNeed, ShareNeed, SlotNeed;
    NeedFrom(m, USEPAGE + 1);
    NeedUnfold(m, DIR, USEPAGE);
    OneNeed(m[USER].entries, 1, 1);
    var frames, slots := {STACK + 1, STACK + 2, STACK + 3, STACK + 4, STACK + 5}, {1, 2, 3, 4, 5, 6};
    assert frames <= FreeFrames(mmap);
    assert slots <= FreeSlots(psl);
    Kernel.SubsetSize(frames, FreeFrames(mmap));
    Kernel.SubsetSize(slots, FreeSlots(psl));
  }

  /** And store to the page of its code. */
  lemma BootStores(m: seq<Page>, mmap: seq<bool>)
    requires BootMem(m) && |mmap| == MAXPAGE
    ensures Load(m, DIR, 0x40001000) == Some(Cell(true, 0)) && StoreFits(m, mmap, DIR, 0x40001000)
  {
  }

  lemma BootCan(m: seq<Page>, mmap: seq<bool>, psl: seq<Slot>, st: seq<Status>, pde: seq<nat>)
    requires BootMem(m) && |mmap| == MAXPAGE && forall f :: 0 <= f < MAXPAGE ==> (mmap[f] <==> f > STACK)
    requires |psl| == MAX_SHRLC && forall i :: 0 <= i < |psl| ==> psl[i] == Slot(0, 0, 0)
    requires |st| == |pde| == MAX_PROCESS && st[0] == Running && pde[0] == DIR
    ensures CanDo(m, mmap, psl, st, pde, Op.Fork(0))
    ensures forall v :: CanDo(m, mmap, psl, st, pde, Store(0, 0x40001000, v))
  {
    hide Load, StoreFits, ForkFits, BootMem;
    BootFits(m, mmap, psl);
    BootStores(m, mmap);
  }

  method BootMemory() returns (mem: array<Page>)
    ensures fresh(mem) && BootMem(mem[..])
  {
    var blank := Bytes(seq(PAGESIZE, _ => 0));
    mem := new Page[MAXPAGE](_ => blank);
    mem[DIR], mem[USER], mem[LAST] := BootDir(), BootUser(), BootLast();
  }

  /** A kernel with one process satisfies what every call keeps. */
  method Start() returns (k: Kernel)
    ensures fresh(k) && fresh(k.mmap) && fresh(k.psl) && fresh(k.mem) && fresh(k.status) && fresh(k.pde)
    ensures forall f: nat :: Gone(k, f) ==> f < RESPAGE
    ensures Sound(k) && k.status[0] == Running
    ensures Read(k.mem[..], k.pde[0], USEPAGE, 0).Some? && Read(k.mem[..], k.pde[0], USEPAGE, 1).Some?
    ensures CanDo(k.mem[..], k.mmap[..], k.psl[..], k.status[..], k.pde[..], Op.Fork(0))
    ensures forall v :: CanDo(k.mem[..], k.mmap[..], k.psl[..], k.status[..], k.pde[..], Store(0, 0x40001000, v))
  {
    hide CanDo, Sharing, Spaces, Read, Lost, Wf, BootRole, BootLocs, BootMem;
    var mmap := new bool[MAXPAGE](f => f > STACK);
    var psl := new Slot[MAX_SHRLC](_ => Slot(0, 0, 0));
    var mem := BootMemory();
    var status := new Status[MAX_PROCESS](_ => Unuse);
    status[0] := Running;
    var pde := new nat[MAX_PROCESS](_ => 0);
    pde[0] := DIR;
    k := new Kernel(mmap, psl, mem, status, pde, BootRole(), BootLocs());
    BootSharing(mem[..], mmap[..]);
    BootSpaces(mem[..], status[..], pde[..]);
    BootReads(mem[..]);
    BootCan(mem[..], mmap[..], psl[..], status[..], pde[..]);
    forall f: nat | Lost(mmap[..], mem[..], BootRole(), BootLocs(), f) ensures f < RESPAGE {
      BootGone(mem[..], mmap[..], f);
    }
    EmptyList(psl[..], k.x);
  }

  lemma EmptyList(psl: seq<Slot>, x: Index)
    requires |psl| == MAX_SHRLC && forall i :: 0 <= i < |psl| ==> psl[i] == Slot(0, 0, 0)
    requires x.groups == map[] && x.head == map[] && x.members == map[] && x.holder == map[]
    ensures Wf(psl, x)
  {
  }
}
