/** lib/malloc.c: first fit over control blocks that lie in the managed memory itself. */
module Heap {
  import Paging
  import opened Basics

  type byte = Paging.byte

  const HEADER := 8
  const KHEAP := 0x10000

  /** The 32-bit number stored at `a`. */
  function Get(m: seq<byte>, a: nat): (r: nat)
    ensures r < TWO32
  {
    if a + 4 > |m| then 0 else m[a] as int + 0x100 * m[a + 1] as int + 0x1_0000 * m[a + 2] as int + 0x100_0000 * m[a + 3] as int
  }

  /** Block `i` reaches from `b[i]` to `b[i + 1]`; its control block says so. */
  ghost predicate Header(m: seq<byte>, b: seq<nat>, i: nat)
    requires i + 1 < |b|
  {
    b[i] + HEADER <= b[i + 1] <= |m| && Get(m, b[i] + 4) == b[i + 1] - b[i]
  }

  /** The control blocks tile the memory from `b[0]` to the last of `b`. */
  ghost predicate Tiled(m: seq<byte>, b: seq<nat>) {
    && |b| > 0 && b[|b| - 1] <= |m|
    && (forall i :: 0 <= i < |b| - 1 ==> Header(m, b, i))
  }

  predicate Available(m: seq<byte>, a: nat) {
    Get(m, a) != 0
  }

  lemma {:induction false} Ordered(m: seq<byte>, b: seq<nat>, i: nat, j: nat)
    requires Tiled(m, b) && i < j < |b|
    ensures b[i] + HEADER <= b[j] <= |m|
    decreases j - i
  {
    assert Header(m, b, j - 1);
    if i + 1 < j { Ordered(m, b, i, j - 1); }
  }

  /** `m'` is `m` but for the control block at `a`. */
  ghost predicate OnlyHeader(m: seq<byte>, m': seq<byte>, a: nat) {
    |m'| == |m| && forall k :: 0 <= k < |m| && !(a <= k < a + HEADER) ==> m'[k] == m[k]
  }

  /** A control block away from a change is what it was. */
  lemma HeaderApart(m: seq<byte>, m': seq<byte>, b: seq<nat>, i: nat)
    requires |m'| == |m| && i + 1 < |b| && Header(m, b, i) && forall k :: b[i] <= k < b[i] + HEADER ==> m'[k] == m[k]
    ensures Header(m', b, i) && Get(m', b[i]) == Get(m, b[i])
  {
  }

  /** Every other control block survives a change of one, or of bytes behind one. */
  lemma OthersKept(m: seq<byte>, m': seq<byte>, b: seq<nat>, k: nat)
    requires Tiled(m, b) && k < |b| && OnlyHeader(m, m', b[k])
    ensures forall i :: 0 <= i < |b| - 1 && i != k ==> Same(m, m', b, i)
  {
    hide Get;
    forall i | 0 <= i < |b| - 1 && i != k
      ensures Same(m, m', b, i)
    {
      assert Header(m, b, i);
      if i < k { Ordered(m, b, i, k); } else { Ordered(m, b, k, i); }
      HeaderApart(m, m', b, i);
    }
  }

  /** The pointers handed out and not given back, with the sizes asked for, are exactly
      the blocks that are not available, and each block is large enough. */
  ghost predicate Live(m: seq<byte>, b: seq<nat>, want: map<nat, nat>) {
    && (forall p :: p in want ==> exists i :: 0 <= i < |b| - 1 && Serves(m, b, i, p, want[p]))
    && (forall i :: 0 <= i < |b| - 1 && !Available(m, b[i]) ==> b[i] + HEADER in want)
  }

  /** Block `i` is the one of pointer `p`. */
  ghost predicate Serves(m: seq<byte>, b: seq<nat>, i: nat, p: nat, n: nat)
    requires i + 1 < |b|
  {
    Header(m, b, i) && p == b[i] + HEADER && !Available(m, b[i]) && n <= b[i + 1] - p
  }

  lemma ServesMeans(m: seq<byte>, b: seq<nat>, i: nat, p: nat, n: nat)
    requires i + 1 < |b|
    ensures Serves(m, b, i, p, n) <==> Header(m, b, i) && p == b[i] + HEADER && !Available(m, b[i]) && n <= b[i + 1] - p
    ensures Header(m, b, i) ==> b[i] + HEADER <= b[i + 1] <= |m|
  {
  }

  lemma TiledMeans(m: seq<byte>, b: seq<nat>, i: nat)
    requires Tiled(m, b)
    ensures |b| > 0 && (i + 1 < |b| ==> Header(m, b, i))
  {
  }

  /** The control block of every block but one is the same in both memories. */
  ghost predicate Same(m: seq<byte>, m': seq<byte>, b: seq<nat>, i: nat)
    requires i + 1 < |b|
  {
    Header(m', b, i) && (Available(m', b[i]) <==> Available(m, b[i]))
  }

  /** Live payloads lie behind their control blocks, below the end, and apart. */
  lemma PayloadsApart(m: seq<byte>, b: seq<nat>, want: map<nat, nat>, p: nat, q: nat)
    requires Tiled(m, b) && Live(m, b, want) && p in want && q in want && p != q
    ensures b[0] + HEADER <= p && p + want[p] <= b[|b| - 1]
    ensures p + want[p] + HEADER <= q || q + want[q] + HEADER <= p
  {
    hide Tiled, Serves, Header, Get, Available;
    TiledMeans(m, b, 0);
    var i :| 0 <= i < |b| - 1 && Serves(m, b, i, p, want[p]);
    var j :| 0 <= j < |b| - 1 && Serves(m, b, j, q, want[q]);
    ServesMeans(m, b, i, p, want[p]);
    ServesMeans(m, b, j, q, want[q]);
    if i > 0 { Ordered(m, b, 0, i); }
    if i + 1 < |b| - 1 { Ordered(m, b, i + 1, |b| - 1); }
    if i + 1 < j { Ordered(m, b, i + 1, j); }
    if j + 1 < i { Ordered(m, b, j + 1, i); }
  }

  lemma Distinct(m: seq<byte>, b: seq<nat>)
    requires Tiled(m, b)
    ensures forall i, j :: 0 <= i < |b| && 0 <= j < |b| && i != j ==> b[i] != b[j]
  {
    hide Tiled;
    forall i, j | 0 <= i < |b| && 0 <= j < |b| && i != j
      ensures b[i] != b[j]
    {
      if i < j { Ordered(m, b, i, j); } else { Ordered(m, b, j, i); }
    }
  }

  lemma NotLive(m: seq<byte>, b: seq<nat>, want: map<nat, nat>, k: nat)
    requires Tiled(m, b) && Live(m, b, want) && k < |b| && (k < |b| - 1 ==> Available(m, b[k]))
    ensures b[k] + HEADER !in want
  {
    hide Tiled, Header, Get, Available;
    Distinct(m, b);
  }

  /** Pointer `q` is still served by its block. */
  lemma StillServed(m: seq<byte>, m': seq<byte>, b: seq<nat>, q: nat, n: nat, k: nat)
    requires k < |b| && (forall i :: 0 <= i < |b| - 1 && i != k ==> Same(m, m', b, i))
    requires exists i :: 0 <= i < |b| - 1 && i != k && Serves(m, b, i, q, n)
    ensures exists i :: 0 <= i < |b| - 1 && i != k && Serves(m', b, i, q, n)
  {
    hide Header, Get, Available;
    var i :| 0 <= i < |b| - 1 && i != k && Serves(m, b, i, q, n);
    assert Same(m, m', b, i);
    assert Serves(m', b, i, q, n);
  }

  lemma TiledAfter(m: seq<byte>, m': seq<byte>, b: seq<nat>, k: nat)
    requires Tiled(m, b) && |m'| == |m| && (forall i :: 0 <= i < |b| - 1 && i != k ==> Same(m, m', b, i))
    requires k < |b| - 1 ==> Header(m', b, k)
    ensures Tiled(m', b)
  {
    hide Get, Available;
    forall i | 0 <= i < |b| - 1
      ensures Header(m', b, i)
    {
      if i != k { assert Same(m, m', b, i); }
    }
  }

  /** Marking block `k` taken for pointer `p`. */
  lemma TakeKeeps(m: seq<byte>, m': seq<byte>, b: seq<nat>, want: map<nat, nat>, k: nat, n: nat)
    requires Tiled(m, b) && Live(m, b, want) && k < |b| - 1 && Available(m, b[k])
    requires OnlyHeader(m, m', b[k]) && Header(m', b, k) && !Available(m', b[k]) && n + HEADER <= b[k + 1] - b[k]
    ensures b[k] + HEADER !in want
    ensures Tiled(m', b) && Live(m', b, want[b[k] + HEADER := n])
  {
    hide Tiled, Header, Get, Available, OnlyHeader;
    var p, want' := b[k] + HEADER, want[b[k] + HEADER := n];
    OnlySize(m, m', b[k]);
    OthersKept(m, m', b, k);
    TiledAfter(m, m', b, k);
    NotLive(m, b, want, k);
    forall q | q in want'
      ensures exists i :: 0 <= i < |b| - 1 && Serves(m', b, i, q, want'[q])
    {
      if q == p { assert Serves(m', b, k, q, n); } else { StillServed(m, m', b, q, want[q], k); }
    }
    forall i | 0 <= i < |b| - 1 && !Available(m', b[i])
      ensures b[i] + HEADER in want'
    {
      if i != k { assert Same(m, m', b, i); }
    }
  }

  lemma OnlySize(m: seq<byte>, m': seq<byte>, a: nat)
    requires OnlyHeader(m, m', a)
    ensures |m'| == |m|
  {
  }

  /** A new block behind the last one. */
  lemma GrowKeeps(m: seq<byte>, m': seq<byte>, b: seq<nat>, want: map<nat, nat>, n: nat)
    requires Tiled(m, b) && Live(m, b, want) && OnlyHeader(m, m', b[|b| - 1])
    requires var b' := b + [b[|b| - 1] + n + HEADER]; Header(m', b', |b| - 1) && !Available(m', b[|b| - 1])
    ensures b[|b| - 1] + HEADER !in want
    ensures var b' := b + [b[|b| - 1] + n + HEADER]; Tiled(m', b') && Live(m', b', want[b[|b| - 1] + HEADER := n])
  {
    hide Tiled, Header, Get, Available, OnlyHeader, Serves;
    TiledMeans(m, b, 0);
    var k: nat := |b| - 1;
    var e := b[k] + n + HEADER;
    var p := b[k] + HEADER;
    OnlySize(m, m', b[k]);
    OthersKept(m, m', b, k);
    TiledAfter(m, m', b, k);
    NotLive(m, b, want, k);
    LongerTiled(m', b, e);
    ServesMeans(m', b + [e], k, p, n);
    assert (b + [e])[k] == b[k] && (b + [e])[k + 1] == e;
    forall q | q in want
      ensures exists i :: 0 <= i < |b + [e]| - 1 && Serves(m', b + [e], i, q, want[q])
    {
      var j := ServedBy(m, b, want, q);
      StillServed(m, m', b, q, want[q], k);
      var i :| 0 <= i < |b| - 1 && i != k && Serves(m', b, i, q, want[q]);
      LongerServes(m', b, e, i, q, want[q]);
    }
    forall i | 0 <= i < |b + [e]| - 1 && !Available(m', (b + [e])[i])
      ensures (b + [e])[i] + HEADER in want[p := n]
    {
      if i != k { assert Same(m, m', b, i); }
    }
    LiveMore(m', b + [e], want, p, n, k);
  }

  lemma LiveMore(m: seq<byte>, b: seq<nat>, want: map<nat, nat>, p: nat, n: nat, k: nat)
    requires p !in want && forall q :: q in want ==> exists i :: 0 <= i < |b| - 1 && Serves(m, b, i, q, want[q])
    requires k + 1 < |b| && Serves(m, b, k, p, n)
    requires forall i :: 0 <= i < |b| - 1 && !Available(m, b[i]) ==> b[i] + HEADER in want[p := n]
    ensures Live(m, b, want[p := n])
  {
    hide Serves, Available;
    var want' := want[p := n];
    forall q | q in want'
      ensures exists i :: 0 <= i < |b| - 1 && Serves(m, b, i, q, want'[q])
    {
      if q != p { assert q in want && want'[q] == want[q]; }
    }
  }

  lemma LongerTiled(m: seq<byte>, b: seq<nat>, e: nat)
    requires Tiled(m, b) && Header(m, b + [e], |b| - 1)
    ensures Tiled(m, b + [e])
  {
    hide Get;
    forall i | 0 <= i < |b|
      ensures Header(m, b + [e], i)
    {
      if i < |b| - 1 { assert Header(m, b, i); }
    }
  }

  lemma LongerServes(m: seq<byte>, b: seq<nat>, e: nat, i: nat, q: nat, n: nat)
    requires i + 1 < |b| && Serves(m, b, i, q, n)
    ensures Serves(m, b + [e], i, q, n)
  {
    hide Get;
  }

  /** Giving a block back. */
  lemma FreeKeeps(m: seq<byte>, m': seq<byte>, b: seq<nat>, want: map<nat, nat>, k: nat)
    requires Tiled(m, b) && Live(m, b, want) && k < |b| - 1
    requires OnlyHeader(m, m', b[k]) && Header(m', b, k) && Available(m', b[k])
    ensures Tiled(m', b) && Live(m', b, want - {b[k] + HEADER})
  {
    hide Tiled, Header, Get, Available, OnlyHeader, Serves;
    OnlySize(m, m', b[k]);
    OthersKept(m, m', b, k);
    TiledAfter(m, m', b, k);
    var want' := want - {b[k] + HEADER};
    forall q | q in want'
      ensures exists i :: 0 <= i < |b| - 1 && Serves(m', b, i, q, want'[q])
    {
      assert q in want && want'[q] == want[q];
      var i := ServedBy(m, b, want, q);
      StillServed(m, m', b, q, want[q], k);
    }
    forall i | 0 <= i < |b| - 1 && !Available(m', b[i])
      ensures b[i] + HEADER in want'
    {
      Distinct(m, b);
      assert Same(m, m', b, i);
    }
  }

  lemma ServedBy(m: seq<byte>, b: seq<nat>, want: map<nat, nat>, q: nat) returns (i: nat)
    requires Live(m, b, want) && q in want
    ensures i + 1 < |b| && Serves(m, b, i, q, want[q]) && q == b[i] + HEADER
  {
    i :| 0 <= i < |b| - 1 && Serves(m, b, i, q, want[q]);
  }

  /** The owner of a live pointer writes inside what he asked for. */
  lemma WriteKeeps(m: seq<byte>, m': seq<byte>, b: seq<nat>, want: map<nat, nat>, p: nat)
    requires Tiled(m, b) && Live(m, b, want) && p in want && |m'| == |m|
    requires forall k :: 0 <= k < |m| && !(p <= k < p + want[p]) ==> m'[k] == m[k]
    ensures Tiled(m', b) && Live(m', b, want)
  {
    hide Tiled, Header, Get, Available, Serves;
    TiledMeans(m, b, 0);
    var j := ServedBy(m, b, want, p);
    forall i | 0 <= i < |b| - 1
      ensures Same(m, m', b, i)
    {
      WriteMisses(m, b, j, p, want[p], i);
      Untouched(m, m', b, i);
    }
    var last: nat := |b| - 1;
    TiledAfter(m, m', b, last);
    forall q | q in want
      ensures exists i :: 0 <= i < |b| - 1 && Serves(m', b, i, q, want[q])
    {
      var i := ServedBy(m, b, want, q);
      StillServed(m, m', b, q, want[q], last);
    }
    forall i | 0 <= i < |b| - 1 && !Available(m', b[i])
      ensures b[i] + HEADER in want
    {
      assert Same(m, m', b, i);
    }
  }

  /** The payload of block `j` and the control block of block `i` have no byte in common. */
  lemma WriteMisses(m: seq<byte>, b: seq<nat>, j: nat, p: nat, n: nat, i: nat)
    requires Tiled(m, b) && i + 1 < |b| && j + 1 < |b| && Serves(m, b, j, p, n)
    ensures Header(m, b, i) && (b[i] + HEADER <= p || p + n <= b[i])
  {
    hide Tiled, Get, Available;
    TiledMeans(m, b, i);
    if j + 1 < i { Ordered(m, b, j + 1, i); }
    if i < j { Ordered(m, b, i, j); }
  }

  lemma Untouched(m: seq<byte>, m': seq<byte>, b: seq<nat>, i: nat)
    requires |m'| == |m| && i + 1 < |b| && Header(m, b, i) && forall k :: b[i] <= k < b[i] + HEADER && k < |m| ==> m'[k] == m[k]
    ensures Same(m, m', b, i)
  {
  }

  // ---- the allocator

  predicate Fits(m: seq<byte>, b: seq<nat>, i: nat, total: nat) {
    i + 1 < |b| && Available(m, b[i]) && b[i] + total <= b[i + 1]
  }

  /** Block `k` is the first one that fits; the number of blocks if none does. */
  ghost predicate FirstFit(m: seq<byte>, b: seq<nat>, k: nat, total: nat) {
    && k < |b| && (k + 1 < |b| ==> Fits(m, b, k, total))
    && forall i :: 0 <= i < k ==> !Fits(m, b, i, total)
  }

  lemma FirstFitMeans(m: seq<byte>, b: seq<nat>, k: nat, total: nat)
    requires FirstFit(m, b, k, total)
    ensures k < |b| && (k + 1 < |b| ==> Fits(m, b, k, total))
  {
  }

  /** The size of a block for a request: a 32-bit sum. */
  function Total(numbytes: nat): nat { (numbytes + HEADER) % TWO32 }

  class Heap {
    const mem: array<byte>
    var initialized: bool
    var start: nat
    var last: nat
    ghost var b: seq<nat>
    ghost var want: map<nat, nat>

    ghost predicate Valid()
      reads this, mem
    {
      if initialized then
        Tiled(mem[..], b) && Live(mem[..], b, want) && start == b[0] && last == b[|b| - 1] && start > 0 && mem.Length < TWO32
      else b == [] && want == map[] && KHEAP < mem.Length < TWO32
    }

    constructor (size: nat)
      requires KHEAP < size < TWO32
      ensures Valid() && want == map[] && mem.Length == size && fresh(mem)
    {
      mem := new byte[size](_ => 0);
      initialized, start, last, b, want := false, 0, 0, [], map[];
    }

    method MallocInit()
      requires Valid() && !initialized
      modifies this`initialized, this`start, this`last, this`b
      ensures Valid() && initialized && b == [KHEAP] && want == old(want)
    {
      last := KHEAP;
      start := last;
      initialized := true;
      b := [KHEAP];
    }

    method Set(a: nat, v: nat)
      requires a + 4 <= mem.Length && v < TWO32
      modifies mem
      ensures Get(mem[..], a) == v && forall k :: 0 <= k < mem.Length && !(a <= k < a + 4) ==> mem[k] == old(mem[k])
    {
      mem[a] := (v % 0x100) as byte;
      mem[a + 1] := (v / 0x100 % 0x100) as byte;
      mem[a + 2] := (v / 0x1_0000 % 0x100) as byte;
      mem[a + 3] := (v / 0x100_0000) as byte;
      FourBytes(v);
    }

    function Read(a: nat): (r: nat)
      requires a + 4 <= mem.Length
      reads mem
      ensures r == Get(mem[..], a)
    {
      mem[a] as int + 0x100 * mem[a + 1] as int + 0x1_0000 * mem[a + 2] as int + 0x100_0000 * mem[a + 3] as int
    }

    /** Lines 61-98: the address of the first block that fits, or 0. The walk over the
        sizes always comes out at the last valid address. */
    method Search(total: nat) returns (location: nat, ghost k: nat)
      requires Valid() && initialized
      ensures FirstFit(mem[..], b, k, total) && location == if k + 1 < |b| then b[k] else 0
      ensures location != 0 <==> k + 1 < |b|
      ensures location == 0 <==> forall i :: 0 <= i < |b| ==> !Fits(mem[..], b, i, total)
    {
      hide Get, Available, Live;
      var current := start;
      k := 0;
      while current != last
        invariant k < |b| && current == b[k] && forall i :: 0 <= i < k ==> !Fits(mem[..], b, i, total)
        decreases |b| - k
      {
        At(k);
        if Read(current) != 0 && Read(current + 4) >= total {
          assert Fits(mem[..], b, k, total) by { AvailableIs(mem[..], b[k]); }
          return current, k;
        }
        assert !Fits(mem[..], b, k, total) by { AvailableIs(mem[..], b[k]); }
        current := current + Read(current + 4);
        k := k + 1;
      }
      AtEnd(k);
      location := 0;
    }

    lemma At(k: nat)
      requires Valid() && initialized && k < |b| && b[k] != last
      ensures k + 1 < |b| && 0 < b[k] && b[k] + HEADER <= mem.Length && Get(mem[..], b[k] + 4) == b[k + 1] - b[k] >= HEADER
    {
      assert Header(mem[..], b, k);
      if k > 0 { Ordered(mem[..], b, 0, k); }
    }

    lemma AtEnd(k: nat)
      requires Valid() && initialized && k < |b| && b[k] == last
      ensures k + 1 == |b|
    {
      Distinct(mem[..], b);
    }

    /** A block is there for the size, or else memory behind the heap. */
    ghost predicate Room(total: nat)
      requires Valid()
      reads this, mem
    {
      || (initialized && exists i :: 0 <= i < |b| && Fits(mem[..], b, i, total))
      || (if initialized then last else KHEAP) + (if total < HEADER then HEADER else total) <= mem.Length
    }

    /** lib/malloc.c `malloc`. The size with its control block is a 32-bit sum; exactly if it
        does not wrap the heap is sound afterwards, and the block as large as asked for. */
    method Malloc(numbytes: nat) returns (ptr: nat)
      requires Valid() && numbytes < TWO32 && Room(Total(numbytes))
      modifies this, mem
      ensures initialized && (Valid() <==> numbytes + HEADER < TWO32)
      ensures ptr >= HEADER && (Get(mem[..], ptr - 4) >= numbytes + HEADER <==> numbytes + HEADER < TWO32)
      ensures ptr !in old(want) && want == old(want)[ptr := numbytes]
      ensures forall k :: 0 <= k < mem.Length && !(ptr - HEADER <= k < ptr) ==> mem[k] == old(mem[k])
      ensures var b0, m0 := if old(initialized) then old(b) else [KHEAP], old(mem[..]);
        exists k: nat :: FirstFit(m0, b0, k, Total(numbytes)) && ptr == b0[k] + HEADER
                 && b == if k + 1 < |b0| then b0 else b0 + [b0[k] + Total(numbytes)]
    {
      hide Get, Available, Live, Tiled, FirstFit;
      if !initialized {
        MallocInit();
        NoBlocks(Total(numbytes));
      }
      var total := (numbytes + HEADER) % TWO32;
      var location, k := Search(total);
      FirstFitMeans(mem[..], b, k, total);
      if location != 0 {
        Take(location, numbytes, k);
      } else {
        location := last;
        Grow(numbytes);
      }
      ptr := location + HEADER;
    }

    lemma NoBlocks(total: nat)
      requires |b| == 1
      ensures forall i :: 0 <= i < |b| ==> !Fits(mem[..], b, i, total)
    {
    }

    /** Lines 83-87. */
    method Take(location: nat, numbytes: nat, ghost k: nat)
      requires Valid() && initialized && k + 1 < |b| && location == b[k] && numbytes < TWO32 && Fits(mem[..], b, k, Total(numbytes))
      modifies this`want, mem
      ensures Valid() <==> numbytes + HEADER < TWO32
      ensures Get(mem[..], location + 4) >= numbytes + HEADER <==> numbytes + HEADER < TWO32
      ensures location + HEADER !in old(want) && want == old(want)[location + HEADER := numbytes]
      ensures forall k :: 0 <= k < mem.Length && !(location <= k < location + HEADER) ==> mem[k] == old(mem[k])
    {
      hide Get, Available, Live, Tiled, Header, OnlyHeader;
      ghost var m0 := mem[..];
      Bounds(k);
      Set(location, 0);
      Taken(m0, mem[..], b, k);
      NotLive(m0, b, want, k);
      want := want[location + HEADER := numbytes];
      if numbytes + HEADER < TWO32 {
        TakeKeeps(m0, mem[..], b, old(want), k, numbytes);
      } else {
        TooSmall(location + HEADER);
      }
      SizeOf(mem[..], b, k);
    }

    /** Lines 106-114. */
    method Grow(numbytes: nat)
      requires Valid() && initialized && numbytes < TWO32
      requires var total := Total(numbytes); last + (if total < HEADER then HEADER else total) <= mem.Length
      modifies this`want, this`b, this`last, mem
      ensures Valid() <==> numbytes + HEADER < TWO32
      ensures Get(mem[..], old(last) + 4) >= numbytes + HEADER <==> numbytes + HEADER < TWO32
      ensures old(last) + HEADER !in old(want) && want == old(want)[old(last) + HEADER := numbytes]
      ensures old(b) != [] && old(last) == old(b)[|old(b)| - 1] && b == old(b) + [old(last) + Total(numbytes)]
      ensures forall k :: 0 <= k < mem.Length && !(old(last) <= k < old(last) + HEADER) ==> mem[k] == old(mem[k])
    {
      hide Get, Available, Live, Tiled, Header, OnlyHeader;
      var location, total := last, (numbytes + HEADER) % TWO32;
      ghost var m0, b0, want0 := mem[..], b, want;
      Some();
      NotLive(m0, b0, want0, |b0| - 1);
      Set(location, 0);
      ghost var m1 := mem[..];
      last := last + total;
      Set(location + 4, total);
      want := want[location + HEADER := numbytes];
      b := b + [location + total];
      if numbytes + HEADER < TWO32 {
        Grown(m0, m1, mem[..], b0, location, total);
        GrowKeeps(m0, mem[..], b0, want0, numbytes);
      } else {
        TooSmall(location + HEADER);
      }
    }

    /** No block is as large as a request that wraps. */
    lemma TooSmall(p: nat)
      requires initialized && p in want && want[p] + HEADER >= TWO32 && mem.Length < TWO32
      ensures !Valid()
    {
      hide Tiled, Get, Available;
      forall i | 0 <= i < |b| - 1
        ensures !Serves(mem[..], b, i, p, want[p])
      {
      }
    }

    lemma Some()
      requires Valid() && initialized
      ensures |b| > 0 && last == b[|b| - 1] && Tiled(mem[..], b) && Live(mem[..], b, want)
    {
    }

    lemma Bounds(k: nat)
      requires Valid() && initialized && k < |b|
      ensures Tiled(mem[..], b) && Live(mem[..], b, want) && b[k] <= mem.Length && last == b[|b| - 1] && start == b[0]
      ensures k + 1 < |b| ==> b[k] + HEADER <= b[k + 1] <= mem.Length
    {
      if k > 0 { Ordered(mem[..], b, 0, k); }
      if k + 1 < |b| { Ordered(mem[..], b, k, k + 1); }
      if k < |b| - 1 { Ordered(mem[..], b, k, |b| - 1); }
    }

    /** lib/malloc.c `free` of a pointer that `malloc` returned and nobody freed since. */
    method Free(firstbyte: nat)
      requires Valid() && firstbyte in want
      modifies this`want, mem
      ensures Valid() && initialized && want == old(want) - {firstbyte}
      ensures forall k :: 0 <= k < mem.Length && !(firstbyte - HEADER <= k < firstbyte - 4) ==> mem[k] == old(mem[k])
    {
      hide Get, Available, Live, Tiled, Header, OnlyHeader;
      ghost var m0 := mem[..];
      ghost var k := Owner(firstbyte);
      Bounds(k);
      Set(firstbyte - HEADER, 1);
      Given(m0, mem[..], b, k);
      FreeKeeps(m0, mem[..], b, want, k);
      want := want - {firstbyte};
    }

    ghost function Owner(p: nat): (k: nat)
      requires Valid() && p in want
      reads this, mem
      ensures initialized && k + 1 < |b| && p == b[k] + HEADER && Serves(mem[..], b, k, p, want[p])
    {
      var k :| 0 <= k < |b| - 1 && Serves(mem[..], b, k, p, want[p]);
      k
    }

    /** A user writes into memory it got. */
    method Write(p: nat, offset: nat, v: byte)
      requires Valid() && p in want && offset < want[p]
      modifies mem
      ensures Valid() && p + offset < mem.Length && mem[..] == old(mem[..])[p + offset := v]
    {
      hide Get, Available, Live, Tiled, Header, Serves;
      ghost var m0 := mem[..];
      ghost var k := Owner(p);
      ServesMeans(m0, b, k, p, want[p]);
      Bounds(k);
      mem[p + offset] := v;
      WriteKeeps(m0, mem[..], b, want, p);
    }

    ghost function Now(): State
      reads this, mem
    {
      State(mem[..], b, want)
    }

    /** Any history of requests, returns and writes: every one does what `Stepped` says, and leaves
        a sound heap. */
    method Run(ops: seq<Op>) returns (ghost hist: seq<State>)
      requires Valid() && want == map[]
      modifies this, mem
      ensures Valid() && |hist| == |ops| + 1 && hist[0] == old(Now()) && hist[|ops|] == Now()
      ensures Runs(hist, ops)
    {
      hide Valid, Stepped, Sound, Tiled, Live;
      var live: map<nat, nat> := map[];
      hist := [Now()];
      NowSound();
      for i := 0 to |ops|
        invariant Valid() && live == want
        invariant |hist| == i + 1 && hist[0] == old(Now()) && hist[i] == Now()
        invariant Runs(hist, ops[..i])
      {
        live := Step(ops[i], live);
        NowSound();
        assert ops[..i + 1] == ops[..i] + [ops[i]];
        hist := hist + [Now()];
      }
      assert ops[..|ops|] == ops;
    }

    lemma NowSound()
      requires Valid()
      ensures Sound(Now())
    {
    }

    /** What is asked of a pointer that is not live, of a size that wraps, or beyond the memory
        without a free block, does not happen. */
    method Step(op: Op, live0: map<nat, nat>) returns (live: map<nat, nat>)
      requires Valid() && live0 == want
      modifies this, mem
      ensures Valid() && live == want && Stepped(old(Now()), op, Now())
    {
      hide Valid, Tiled, Live, Fits, Get, Available;
      live := live0;
      ghost var s := Now();
      BlocksOf(if op.Request? then op.n else 0);
      match op
      case Request(n) =>
        var possible := Possible(n);
        if possible {
          var ptr := Malloc(n);
          live := live[ptr := n];
          ghost var b0 := Blocks(s);
          ghost var k: nat :| FirstFit(s.m, b0, k, n + 8) && ptr == b0[k] + 8 && b == if k + 1 < |b0| then b0 else b0 + [b0[k] + n + 8];
          assert Places(s.m, b0, k, n, ptr, b);
          forall x | 0 <= x < |s.m| && !(ptr - 8 <= x < ptr)
            ensures Now().m[x] == s.m[x]
          {
            assert mem[x] == old(mem[x]);
          }
          assert Gives(s, n, ptr, Now());
        }
      case Return(p) =>
        if p in live {
          Free(p);
          live := live - {p};
        }
      case Store(p, offset, v) =>
        if p in live && offset < live[p] {
          Write(p, offset, v);
        }
    }

    lemma BlocksOf(n: nat)
      requires Valid()
      ensures initialized <==> b != []
      ensures initialized ==> last == b[|b| - 1]
      ensures CanGive(Now(), n) <==> n + 8 < TWO32 && Room(Total(n))
      ensures n + 8 < TWO32 ==> Total(n) == n + 8
    {
      hide Tiled, Live, Fits;
      if initialized { Some(); }
      if n + 8 < TWO32 {
        assert Total(n) == n + 8;
        assert |mem[..]| == mem.Length;
      }
    }

    /** The request does not wrap, and there is a block or memory for it. */
    method Possible(n: nat) returns (r: bool)
      requires Valid()
      ensures r <==> n + HEADER < TWO32 && Room(Total(n))
    {
      if n + HEADER >= TWO32 {
        return false;
      }
      r := (if initialized then last else KHEAP) + n + HEADER <= mem.Length;
      if initialized && !r {
        var location, k := Search(n + HEADER);
        r := location != 0;
      }
    }

    /** At any time the live payloads are apart from each other and from every control
        block, and inside the heap. */
    lemma Apart(p: nat, q: nat)
      requires Valid() && p in want && q in want && p != q
      ensures start + HEADER <= p && p + want[p] <= last
      ensures p + want[p] + HEADER <= q || q + want[q] + HEADER <= p
    {
      hide Tiled, Live;
      Some();
      PayloadsApart(mem[..], b, want, p, q);
    }
  }

  datatype Op = Request(n: nat) | Return(p: nat) | Store(p: nat, offset: nat, v: byte)

  /** The memory, where the blocks start and end, and the live pointers with their sizes. */
  datatype State = State(m: seq<byte>, b: seq<nat>, want: map<nat, nat>)

  ghost predicate Sound(s: State) {
    if s.b == [] then s.want == map[] else Tiled(s.m, s.b) && Live(s.m, s.b, s.want)
  }

  /** A free block is large enough, or there is memory behind the last block. */
  ghost predicate CanGive(s: State, n: nat) {
    var total := n + 8;
    && total < 0x1_0000_0000
    && ((exists i :: 0 <= i < |s.b| && Fits(s.m, s.b, i, total))
        || Blocks(s)[|Blocks(s)| - 1] + total <= |s.m|)
  }

  /** A new pointer behind the control block of the first block that fits, or of a new last one. */
  ghost predicate Gives(s: State, n: nat, p: nat, t: State) {
    && p >= 8 && |t.m| == |s.m| && p !in s.want && t.want == s.want[p := n]
    && (forall x :: 0 <= x < |s.m| && !(p - 8 <= x < p) ==> t.m[x] == s.m[x])
    && exists k: nat :: Places(s.m, Blocks(s), k, n, p, t.b)
  }

  /** The first request starts an empty heap. */
  function Blocks(s: State): seq<nat> {
    if s.b == [] then [0x1_0000] else s.b
  }

  ghost predicate Places(m: seq<byte>, b0: seq<nat>, k: nat, n: nat, p: nat, b: seq<nat>) {
    FirstFit(m, b0, k, n + 8) && p == b0[k] + 8 && b == if k + 1 < |b0| then b0 else b0 + [b0[k] + n + 8]
  }

  ghost predicate Stepped(s: State, op: Op, t: State) {
    && |t.m| == |s.m|
    && match op
      case Request(n) => if CanGive(s, n) then exists p: nat :: Gives(s, n, p, t) else t == s
      case Return(p) =>
        if p in s.want then
          && t.b == s.b && t.want == s.want - {p}
          && forall x :: 0 <= x < |s.m| && !(p - 8 <= x < p - 4) ==> t.m[x] == s.m[x]
        else t == s
      case Store(p, offset, v) =>
        if p in s.want && offset < s.want[p] then p + offset < |s.m| && t == s.(m := s.m[p + offset := v]) else t == s
  }

  ghost predicate Runs(hist: seq<State>, ops: seq<Op>) {
    && |hist| == |ops| + 1
    && (forall i :: 0 <= i < |hist| ==> Sound(hist[i]))
    && forall i :: 0 <= i < |ops| ==> Stepped(hist[i], ops[i], hist[i + 1])
  }

  /** Over any run a pointer stays live until it is given back, and each byte of its block keeps
      its value until the owner stores to it. */
  lemma {:induction false} Survives(hist: seq<State>, ops: seq<Op>, p: nat, o: nat)
    requires Runs(hist, ops) && p in hist[0].want && o < hist[0].want[p]
    requires forall i :: 0 <= i < |ops| ==> ops[i] != Return(p) && !(ops[i].Store? && ops[i].p == p && ops[i].offset == o)
    ensures var s, t := hist[0], hist[|ops|];
      p in t.want && t.want[p] == s.want[p] && p + o < |s.m| == |t.m| && t.m[p + o] == s.m[p + o]
    decreases |ops|
  {
    hide Sound, Stepped;
    if ops == [] {
      InMemory(hist[0], p);
    } else {
      assert Sound(hist[0]) && Sound(hist[1]) && Stepped(hist[0], ops[0], hist[1]);
      StepSpares(hist[0], ops[0], hist[1], p, o);
      assert Runs(hist[1..], ops[1..]) by {
        forall i | 0 <= i < |ops[1..]|
          ensures Stepped(hist[1..][i], ops[1..][i], hist[1..][i + 1])
        {
          assert Stepped(hist[i + 1], ops[i + 1], hist[i + 2]);
        }
      }
      Survives(hist[1..], ops[1..], p, o);
    }
  }

  lemma InMemory(s: State, p: nat)
    requires Sound(s) && p in s.want
    ensures s.b != [] && 8 <= p && p + s.want[p] <= |s.m|
  {
    hide Tiled, Get, Available;
    var i := ServedBy(s.m, s.b, s.want, p);
    ServesMeans(s.m, s.b, i, p, s.want[p]);
  }

  lemma StepSpares(s: State, op: Op, t: State, p: nat, o: nat)
    requires Sound(s) && Sound(t) && Stepped(s, op, t) && p in s.want && o < s.want[p]
    requires op != Return(p) && !(op.Store? && op.p == p && op.offset == o)
    ensures p in t.want && t.want[p] == s.want[p] && p + o < |s.m| == |t.m| && t.m[p + o] == s.m[p + o]
  {
    hide Tiled, Live, FirstFit, CanGive;
    InMemory(s, p);
    match op
    case Request(n) =>
      if t != s {
        var q: nat :| Gives(s, n, q, t);
        InMemory(t, p);
        PayloadsApart(t.m, t.b, t.want, p, q);
      }
    case Return(q) =>
      if q in s.want { PayloadsApart(s.m, s.b, s.want, p, q); }
    case Store(q, offset, v) =>
      if q in s.want && q != p { PayloadsApart(s.m, s.b, s.want, p, q); }
  }

  lemma AvailableIs(m: seq<byte>, a: nat)
    ensures Available(m, a) <==> Get(m, a) != 0
  {
  }

  lemma SizeOf(m: seq<byte>, b: seq<nat>, k: nat)
    requires k + 1 < |b| && Header(m, b, k)
    ensures Get(m, b[k] + 4) == b[k + 1] - b[k] && b[k + 1] <= |m|
  {
  }

  /** Clearing the flag of a block leaves its size. */
  lemma Taken(m: seq<byte>, m': seq<byte>, b: seq<nat>, k: nat)
    requires Tiled(m, b) && k + 1 < |b| && |m'| == |m| && Get(m', b[k]) == 0
    requires forall j :: 0 <= j < |m| && !(b[k] <= j < b[k] + 4) ==> m'[j] == m[j]
    ensures OnlyHeader(m, m', b[k]) && Header(m', b, k) && !Available(m', b[k])
  {
    assert Header(m, b, k);
  }

  lemma Given(m: seq<byte>, m': seq<byte>, b: seq<nat>, k: nat)
    requires Tiled(m, b) && k + 1 < |b| && |m'| == |m| && Get(m', b[k]) == 1
    requires forall j :: 0 <= j < |m| && !(b[k] <= j < b[k] + 4) ==> m'[j] == m[j]
    ensures OnlyHeader(m, m', b[k]) && Header(m', b, k) && Available(m', b[k])
  {
    assert Header(m, b, k);
  }

  lemma Grown(m: seq<byte>, m1: seq<byte>, m': seq<byte>, b: seq<nat>, a: nat, total: nat)
    requires |b| > 0 && a == b[|b| - 1] && |m| == |m1| == |m'| && HEADER <= total && a + total <= |m|
    requires Get(m1, a) == 0 && Get(m', a + 4) == total
    requires forall j :: 0 <= j < |m| && !(a <= j < a + 4) ==> m1[j] == m[j]
    requires forall j :: 0 <= j < |m| && !(a + 4 <= j < a + 8) ==> m'[j] == m1[j]
    ensures OnlyHeader(m, m', a) && Header(m', b + [a + total], |b| - 1) && !Available(m', a)
  {
  }

  lemma FourBytes(v: nat)
    requires v < TWO32
    ensures v / 0x100_0000 < 0x100
    ensures v % 0x100 + 0x100 * (v / 0x100 % 0x100) + 0x1_0000 * (v / 0x1_0000 % 0x100) + 0x100_0000 * (v / 0x100_0000) == v
  {
  }
}
