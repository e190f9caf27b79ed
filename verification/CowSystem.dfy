/** Copy-on-write against eager copying, over every run. */
module CowSystem {
  import opened Basics
  import opened Paging
  import opened PageShareList
  import opened CowKernel
  import opened AddressSpaces
  import opened ForkCall
  import opened Fault
  import opened Exit

  // ---- the machine that copies every byte

  /** What a process sees: its bytes by linear address, from 1 GiB on. */
  type Space = imap<nat, Cell>

  /** One slot of the process table. */
  datatype Proc = Empty | Alive(space: Space) | Dead

  type World = seq<Proc>

  datatype Op = Fork(pid: nat) | Store(pid: nat, addr: nat, v: byte) | Exit(pid: nat) | Wait(pid: nat)

  datatype Event =
    | Forked(parent: nat, child: nat)
    | NoSlot(parent: nat)
    | Wrote(pid: nat, addr: nat, v: byte)
    | Exited(pid: nat)
    | Reaped(pid: nat)

  /** The first empty slot from `c` on, or the number of slots. */
  ghost function FirstEmpty(w: World, c: nat): (r: nat)
    decreases |w| - c
  {
    if c >= |w| then |w| else if w[c].Empty? then c else FirstEmpty(w, c + 1)
  }

  /** Fork copies a whole space into the first empty slot, a store changes one byte of one
      space, exit leaves a dead process, and waiting for it empties its slot. */
  ghost function EagerStep(w: World, op: Op): World
    requires op.pid < |w|
  {
    match op
    case Fork(p) => if FirstEmpty(w, 1) < |w| then w[FirstEmpty(w, 1) := w[p]] else w
    case Store(p, a, v) =>
      if w[p].Alive? && a in w[p].space then w[p := Alive(w[p].space[a := Cell(w[p].space[a].user, v)])] else w
    case Exit(p) => w[p := Dead]
    case Wait(p) => w[p := Empty]
  }

  ghost function EagerAnswer(w: World, op: Op): Event {
    match op
    case Fork(p) => if FirstEmpty(w, 1) < |w| then Forked(p, FirstEmpty(w, 1)) else NoSlot(p)
    case Store(p, a, v) => Wrote(p, a, v)
    case Exit(p) => Exited(p)
    case Wait(p) => Reaped(p)
  }

  /** The process is there for it, and user code may store at the address. */
  ghost predicate EagerCan(w: World, op: Op) {
    op.pid < |w| &&
    match op
    case Fork(p) => w[p].Alive?
    case Store(p, a, v) => w[p].Alive? && a in w[p].space && w[p].space[a].user
    case Exit(p) => w[p].Alive?
    case Wait(p) => w[p].Dead?
  }

  ghost function EagerRun(w: World, ops: seq<Op>): (r: World)
    requires |w| == MAX_PROCESS && forall n :: 0 <= n < |ops| ==> ops[n].pid < MAX_PROCESS
    ensures |r| == MAX_PROCESS
  {
    if ops == [] then w else EagerStep(EagerRun(w, ops[..|ops| - 1]), ops[|ops| - 1])
  }

  lemma {:induction false} FirstEmptyIs(w: World, c: nat)
    requires c <= |w|
    ensures var r := FirstEmpty(w, c);
      && c <= r <= |w| && (r < |w| ==> w[r].Empty?) && forall q :: c <= q < r ==> !w[q].Empty?
    decreases |w| - c
  {
    if c < |w| && !w[c].Empty? { FirstEmptyIs(w, c + 1); }
  }

  // ---- what the processes of the kernel read

  ghost function SpaceOf(m: seq<Page>, d: nat): Space {
    imap x: nat | 0x40000000 <= x < 0x1_0000_0000 && Load(m, d, x).Some? :: Load(m, d, x).value
  }

  predicate Live(st: Status) {
    st != Unuse && st != Deaded
  }

  ghost function View(m: seq<Page>, st: seq<Status>, pde: seq<nat>): (w: World)
    requires |st| == |pde| == MAX_PROCESS
    ensures |w| == MAX_PROCESS
    ensures forall p :: 0 <= p < MAX_PROCESS ==>
      w[p] == if st[p] == Unuse then Empty else if st[p] == Deaded then Dead else Alive(SpaceOf(m, pde[p]))
  {
    seq(MAX_PROCESS, p requires 0 <= p < MAX_PROCESS =>
      if st[p] == Unuse then Empty else if st[p] == Deaded then Dead else Alive(SpaceOf(m, pde[p])))
  }

  ghost function Shown(k: Kernel): (w: World)
    requires k.status.Length == k.pde.Length == MAX_PROCESS
    reads k, k.mem, k.status, k.pde
    ensures |w| == MAX_PROCESS
  {
    View(k.mem[..], k.status[..], k.pde[..])
  }

  lemma SameSpace(m: seq<Page>, d: nat, m3: seq<Page>, d3: nat)
    requires forall i, j :: USEPAGE <= i < ENTRIES && 0 <= j < ENTRIES ==> Read(m3, d3, i, j) == Read(m, d, i, j)
    ensures SpaceOf(m3, d3) == SpaceOf(m, d)
  {
    hide Read, Load;
    SameLoads(m, d, m3, d3);
  }

  lemma StoredSpace(m: seq<Page>, d: nat, m3: seq<Page>, own: bool, a: nat, v: byte)
    requires own ==> 0x40000000 <= a < 0x1_0000_0000 && Load(m, d, a).Some? && Load(m, d, a).value.user
    requires forall x :: USEBASE <= x < 0x1_0000_0000 ==>
      Load(m3, d, x) == if own && x == a then Some(Cell(true, v)) else Load(m, d, x)
    ensures own ==> a in SpaceOf(m, d)
    ensures SpaceOf(m3, d) == if own then SpaceOf(m, d)[a := Cell(SpaceOf(m, d)[a].user, v)] else SpaceOf(m, d)
  {
    hide Load;
  }

  ghost predicate Sound(k: Kernel)
    reads k, k.mmap, k.psl, k.mem, k.status, k.pde
  {
    Inv(k) && k.status.Length == k.pde.Length == MAX_PROCESS && k.mmap.Length == MAXPAGE && k.psl.Length == MAX_SHRLC
  }

  /** The frames that are neither available nor in use. */
  ghost predicate Gone(k: Kernel, f: nat)
    reads k, k.mmap, k.mem
  {
    Lost(k.mmap[..], k.mem[..], k.role, k.locs, f)
  }

  ghost function Reaps(ops: seq<Op>): nat {
    if ops == [] then 0 else Reaps(ops[..|ops| - 1]) + if ops[|ops| - 1].Wait? then 1 else 0
  }

  // ---- the calls, each as one step of the eager machine

  /** The call is a legal one and the frames and share-list slots it may take are there. */
  predicate CanDo(m: seq<Page>, mmap: seq<bool>, psl: seq<Slot>, st: seq<Status>, pde: seq<nat>, op: Op)
    requires |mmap| == MAXPAGE && |psl| == MAX_SHRLC && |st| == |pde| == MAX_PROCESS
  {
    op.pid < MAX_PROCESS &&
    match op
    case Fork(p) => Live(st[p]) && ((forall c :: 1 <= c < MAX_PROCESS ==> st[c] != Unuse) || ForkFits(m, mmap, psl, pde[p]))
    case Store(p, a, v) =>
      && Live(st[p]) && USEBASE <= a < 0x1_0000_0000 && StoreFits(m, mmap, pde[p], a)
      && Load(m, pde[p], a).Some? && Load(m, pde[p], a).value.user
    case Exit(p) => Live(st[p])
    case Wait(p) => st[p] == Deaded
  }

  /** What the eager machine can do the kernel can too, unless a fork finds too few frames or
      share-list slots, or a store no frame at all. */
  lemma StopsShort(m: seq<Page>, mmap: seq<bool>, psl: seq<Slot>, st: seq<Status>, pde: seq<nat>, op: Op)
    requires |mmap| == MAXPAGE && |psl| == MAX_SHRLC && |st| == |pde| == MAX_PROCESS
    ensures CanDo(m, mmap, psl, st, pde, op) ==> EagerCan(View(m, st, pde), op)
    ensures EagerCan(View(m, st, pde), op) && !CanDo(m, mmap, psl, st, pde, op) ==>
      || (op.Fork? && op.pid < 10 && !ForkFits(m, mmap, psl, pde[op.pid]) && exists c :: 1 <= c < 10 && st[c] == Unuse)
      || (op.Store? && forall f :: 0x500 <= f < 0x10_0000 ==> !mmap[f])
  {
    hide Load, ForkFits;
    if op.Store? && op.pid < MAX_PROCESS { StoreStops(m, mmap, pde[op.pid], op.addr); }
  }

  lemma StoreStops(m: seq<Page>, mmap: seq<bool>, d: nat, a: nat)
    requires |mmap| == MAXPAGE
    ensures StoreFits(m, mmap, d, a) || forall f :: 0x500 <= f < 0x10_0000 ==> !mmap[f]
  {
    forall f: nat | 0x500 <= f < 0x10_0000 && mmap[f]
      ensures StoreFits(m, mmap, d, a)
    {
      assert f in FreeFrames(mmap);
    }
  }

  /** The child takes the first unused slot; there is no child exactly if there is none. */
  method DoFork(k: Kernel, p: nat) returns (ev: Event)
    requires Sound(k) && CanDo(k.mem[..], k.mmap[..], k.psl[..], k.status[..], k.pde[..], Fork(p))
    modifies k, k.mmap, k.psl, k.mem, k.status, k.pde
    ensures Sound(k) && ev == EagerAnswer(old(Shown(k)), Fork(p)) && Shown(k) == EagerStep(old(Shown(k)), Fork(p))
    ensures ev == NoSlot(p) <==> forall c :: 1 <= c < 10 ==> old(k.status[c]) != Unuse
    ensures ev == NoSlot(p) ==> k.status[..] == old(k.status[..])
    ensures ev.Forked? ==> 1 <= ev.child < MAX_PROCESS && k.status[..] == old(k.status[..])[ev.child := Ready]
    ensures forall f :: Gone(k, f) ==> old(Gone(k, f))
  {
    hide Inv, Read, ForkFits, SpaceOf, Lost;
    ghost var m, st, pde := k.mem[..], k.status[..], k.pde[..];
    var c := SysFork(k, p);
    Sizes(k);
    FirstSlot(m, st, pde, c);
    if c == -1 {
      ev := NoSlot(p);
    } else {
      ev := Forked(p, c);
      SameSpace(m, pde[p], k.mem[..], k.pde[c]);
    }
    forall q | 0 <= q < MAX_PROCESS && Live(st[q])
      ensures SpaceOf(k.mem[..], pde[q]) == SpaceOf(m, pde[q])
    {
      SameSpace(m, pde[q], k.mem[..], pde[q]);
    }
  }

  /** The first empty slot of the eager machine is the first unused one of the kernel. */
  lemma FirstSlot(m: seq<Page>, st: seq<Status>, pde: seq<nat>, c: int)
    requires |st| == |pde| == MAX_PROCESS && (c == -1 <==> !exists q :: ChildSlot(st, q)) && (c != -1 ==> ChildSlot(st, c))
    ensures FirstEmpty(View(m, st, pde), 1) == if c == -1 then MAX_PROCESS else c
    ensures c == -1 <==> forall q :: 1 <= q < MAX_PROCESS ==> st[q] != Unuse
  {
    hide SpaceOf;
    var w, r := View(m, st, pde), FirstEmpty(View(m, st, pde), 1);
    FirstEmptyIs(w, 1);
    if r < |w| { assert ChildSlot(st, r); }
  }

  lemma Sizes(k: Kernel)
    requires Inv(k)
    ensures k.mmap.Length == MAXPAGE && k.psl.Length == MAX_SHRLC
  {
    k.SharingSizes();
  }

  method DoStore(k: Kernel, p: nat, a: nat, v: byte) returns (ev: Event)
    requires Sound(k) && CanDo(k.mem[..], k.mmap[..], k.psl[..], k.status[..], k.pde[..], Store(p, a, v))
    modifies k, k.mmap, k.psl, k.mem
    ensures Sound(k) && ev == EagerAnswer(old(Shown(k)), Store(p, a, v)) && Shown(k) == EagerStep(old(Shown(k)), Store(p, a, v))
    ensures k.status[..] == old(k.status[..])
    ensures forall f :: Gone(k, f) ==> old(Gone(k, f))
  {
    hide Inv, Load, StoreFits, Lost, SpaceOf;
    ghost var m, st, pde := k.mem[..], k.status[..], k.pde[..];
    UserStore(k, p, a, v);
    Sizes(k);
    ev := Wrote(p, a, v);
    forall q | 0 <= q < MAX_PROCESS && Live(st[q])
      ensures q == p ==> a in SpaceOf(m, pde[q])
      ensures SpaceOf(k.mem[..], pde[q])
              == if q == p then SpaceOf(m, pde[q])[a := Cell(SpaceOf(m, pde[q])[a].user, v)] else SpaceOf(m, pde[q])
    {
      StoredSpace(m, pde[q], k.mem[..], q == p, a, v);
    }
  }

  method DoExit(k: Kernel, p: nat) returns (ev: Event)
    requires Sound(k) && CanDo(k.mem[..], k.mmap[..], k.psl[..], k.status[..], k.pde[..], Exit(p))
    modifies k, k.mmap, k.psl, k.mem, k.status
    ensures Sound(k) && ev == EagerAnswer(old(Shown(k)), Exit(p)) && Shown(k) == EagerStep(old(Shown(k)), Exit(p))
    ensures k.status[..] == old(k.status[..])[p := Deaded]
    ensures forall f :: Gone(k, f) ==> old(Gone(k, f))
  {
    hide Inv, Read, SpaceOf, Lost;
    ghost var m, st, pde := k.mem[..], k.status[..], k.pde[..];
    Cleanup(k, p);
    Sizes(k);
    ev := Exited(p);
    forall q | 0 <= q < MAX_PROCESS && Live(st[q]) && q != p
      ensures SpaceOf(k.mem[..], pde[q]) == SpaceOf(m, pde[q])
    {
      SameSpace(m, pde[q], k.mem[..], pde[q]);
    }
  }

  method DoWait(k: Kernel, p: nat) returns (ev: Event, ghost t: nat)
    requires Sound(k) && CanDo(k.mem[..], k.mmap[..], k.psl[..], k.status[..], k.pde[..], Wait(p))
    modifies k, k.mmap, k.mem, k.status
    ensures Sound(k) && ev == EagerAnswer(old(Shown(k)), Wait(p)) && Shown(k) == EagerStep(old(Shown(k)), Wait(p))
    ensures k.status[..] == old(k.status[..])[p := Unuse]
    ensures forall f :: Gone(k, f) ==> f == t || old(Gone(k, f))
  {
    hide Inv, Read, SpaceOf, Lost;
    ghost var m, st, pde := k.mem[..], k.status[..], k.pde[..];
    t := CleanChild(k, p);
    Sizes(k);
    ev := Reaped(p);
    forall q | 0 <= q < MAX_PROCESS && Live(st[q])
      ensures SpaceOf(k.mem[..], pde[q]) == SpaceOf(m, pde[q])
    {
      SameSpace(m, pde[q], k.mem[..], pde[q]);
    }
  }

  /** Any sequence of calls, up to one for which frames or slots are short or that the eager
      machine could not do either: each answers what that one answers, at the end every slot is
      as empty, alive or dead as there and every live process sees exactly the same bytes, and
      no frame is lost but one for each child that was waited for. */
  method Run(k: Kernel, ops: seq<Op>) returns (evs: seq<Event>, ghost gone: set<nat>)
    requires Sound(k)
    modifies k, k.mmap, k.psl, k.mem, k.status, k.pde
    ensures Sound(k) && |evs| <= |ops| && forall n :: 0 <= n < |evs| ==> ops[n].pid < MAX_PROCESS
    ensures forall n :: 0 <= n < |evs| ==> evs[n] == EagerAnswer(EagerRun(old(Shown(k)), ops[..n]), ops[n])
    ensures Shown(k) == EagerRun(old(Shown(k)), ops[..|evs|])
    ensures |evs| < |ops| && EagerCan(Shown(k), ops[|evs|]) ==>
      || (ops[|evs|].Fork? && !ForkFits(k.mem[..], k.mmap[..], k.psl[..], k.pde[ops[|evs|].pid]))
      || (ops[|evs|].Store? && forall f :: 0x500 <= f < 0x10_0000 ==> !k.mmap[f])
    ensures |gone| <= Reaps(ops[..|evs|]) && forall f :: Gone(k, f) ==> f in gone || old(Gone(k, f))
  {
    hide Sound, CanDo, EagerCan, ForkFits, View, Shown, EagerStep, EagerRun, EagerAnswer, Gone, Reaps;
    RunSizes(k);
    NoneYet(Shown(k), ops);
    evs, gone := [], {};
    ghost var start := Shown(k);
    while |evs| < |ops| && CanDo(k.mem[..], k.mmap[..], k.psl[..], k.status[..], k.pde[..], ops[|evs|])
      invariant Sound(k) && |evs| <= |ops| && forall n :: 0 <= n < |evs| ==> ops[n].pid < MAX_PROCESS
      invariant forall n :: 0 <= n < |evs| ==> evs[n] == EagerAnswer(EagerRun(start, ops[..n]), ops[n])
      invariant Shown(k) == EagerRun(start, ops[..|evs|])
      invariant |gone| <= Reaps(ops[..|evs|]) && forall f :: Gone(k, f) ==> f in gone || old(Gone(k, f))
      decreases |ops| - |evs|
    {
      var op, ev := ops[|evs|], NoSlot(0);
      HasPid(k, op);
      RunSizes(k);
      match op {
        case Fork(p) => ev := DoFork(k, p);
        case Store(p, a, v) => ev := DoStore(k, p, a, v);
        case Exit(p) => ev := DoExit(k, p);
        case Wait(p) =>
          ghost var t: nat;
          ev, t := DoWait(k, p);
          gone := gone + {t};
      }
      OneMore(start, ops, |evs|);
      evs := evs + [ev];
    }
    if |evs| < |ops| && EagerCan(Shown(k), ops[|evs|]) { Stops(k, ops[|evs|]); }
  }

  lemma Stops(k: Kernel, op: Op)
    requires Sound(k) && !CanDo(k.mem[..], k.mmap[..], k.psl[..], k.status[..], k.pde[..], op) && EagerCan(Shown(k), op)
    ensures (op.Fork? && op.pid < 10 && !ForkFits(k.mem[..], k.mmap[..], k.psl[..], k.pde[op.pid]))
         || (op.Store? && forall f :: 0x500 <= f < 0x10_0000 ==> !k.mmap[f])
  {
    hide Inv, CanDo, EagerCan, ForkFits, View;
    StopsShort(k.mem[..], k.mmap[..], k.psl[..], k.status[..], k.pde[..], op);
    if op.Store? {
      forall f | 0x500 <= f < 0x10_0000
        ensures !k.mmap[f]
      {
        assert !k.mmap[..][f];
      }
    }
  }

  lemma RunSizes(k: Kernel)
    requires Sound(k)
    ensures k.status.Length == k.pde.Length == MAX_PROCESS && k.mmap.Length == MAXPAGE && k.psl.Length == MAX_SHRLC
  {
    hide Inv;
  }

  lemma NoneYet(w: World, ops: seq<Op>)
    requires |w| == MAX_PROCESS
    ensures EagerRun(w, ops[..0]) == w && Reaps(ops[..0]) == 0
  {
  }

  lemma OneMore(w: World, ops: seq<Op>, n: nat)
    requires |w| == MAX_PROCESS && n < |ops| && forall i :: 0 <= i <= n ==> ops[i].pid < MAX_PROCESS
    ensures EagerRun(w, ops[..n + 1]) == EagerStep(EagerRun(w, ops[..n]), ops[n])
    ensures Reaps(ops[..n + 1]) == Reaps(ops[..n]) + if ops[n].Wait? then 1 else 0
  {
    hide EagerStep;
    assert ops[..n + 1][..n] == ops[..n];
  }

  lemma HasPid(k: Kernel, op: Op)
    requires Sound(k) && CanDo(k.mem[..], k.mmap[..], k.psl[..], k.status[..], k.pde[..], op)
    ensures op.pid < MAX_PROCESS
  {
  }
}
