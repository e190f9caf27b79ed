/** Physical frames, page-table entries and the numbers that bound them. */
module Paging {

  const ENTRIES := 1024       // entries of one directory or one table
  const USEPAGE := 256        // first directory entry of user space
  const USEENDP := 1023       // last directory entry, and last entry of a table
  const RESPAGE := 0x500      // frames below this one are never handed out
  const MAXPAGE := 0x100000   // number of frames in 4 GiB
  const PAGESIZE := 0x1000

  newtype byte = x: int | 0 <= x < 256

  /** One entry of a page directory or of a page table. */
  datatype Pte = Pte(P: bool, RW: bool, US: bool, AVL: bool, base: nat)

  /** What a frame holds: a directory or table, or plain data. */
  datatype Page = Table(entries: seq<Pte>) | Bytes(bytes: seq<byte>)

  /** The place of a page-table entry: the frame of its table and its index there. */
  datatype Loc = Loc(table: nat, entry: nat)

  predicate IsTable(mem: seq<Page>, t: nat) {
    t < |mem| && mem[t].Table? && |mem[t].entries| == ENTRIES
  }

  ghost predicate IsData(mem: seq<Page>, f: nat) {
    f < |mem| && mem[f].Bytes? && |mem[f].bytes| == PAGESIZE
  }

  function Entry(mem: seq<Page>, l: Loc): Pte
    requires IsTable(mem, l.table) && l.entry < ENTRIES
  {
    mem[l.table].entries[l.entry]
  }

  function SetEntry(mem: seq<Page>, l: Loc, e: Pte): (r: seq<Page>)
    requires IsTable(mem, l.table) && l.entry < ENTRIES
    ensures |r| == |mem| && forall t :: IsTable(r, t) <==> IsTable(mem, t)
  {
    mem[l.table := Table(mem[l.table].entries[l.entry := e])]
  }
}
