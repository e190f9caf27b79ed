/** msg.c: readers and writers of messages meet in one linked list. Each call up to
    the point where it blocks, and each resumption, is one step. */
module Messages {
  import opened Basics
  import opened Paging
  import opened Transfers
  import opened Rendezvous

  predicate IsBlock(flags: nat) { flags % 2 == 1 }
  predicate IsComplete(flags: nat) { flags / 2 % 2 == 1 }

  /** `flags | COMPELET`. */
  function Complete(flags: nat): (r: nat)
    ensures IsComplete(r) && IsBlock(r) == IsBlock(flags)
  {
    if IsComplete(flags) then flags else flags + 2
  }

  /** What process `pid` does next. */
  datatype Op =
    | Reading(pid: nat, peer: nat, buff: nat, len: nat, flags: nat)
    | Writing(pid: nat, peer: nat, buff: nat, len: nat, flags: nat)
    | Resumption(pid: nat)
    | Storing(pid: nat, buff: nat, bytes: seq<byte>)
  {
    function Len(): nat
      requires !Resumption?
    {
      if Storing? then |bytes| else len
    }
  }

  class WmList {
    var from: nat
    var to: nat
    var buff: nat
    var left: nat
    var flags: nat
    var next: WmList?
    ghost var reader: bool
    ghost var id: nat
    ghost var born: bool

    constructor (from: nat, to: nat, buff: nat, left: nat, flags: nat, ghost reader: bool, ghost id: nat)
      ensures this.from == from && this.to == to && this.buff == buff && this.left == left && this.flags == flags
      ensures this.next == null && this.reader == reader && this.id == id && this.born == IsComplete(flags)
    {
      this.from, this.to, this.buff, this.left, this.flags, this.next := from, to, buff, left, flags, null;
      this.reader, this.id, this.born := reader, id, IsComplete(flags);
    }

    ghost function Val(): Ent
      reads this
    {
      Ent(from, to, buff, left, IsBlock(flags), IsComplete(flags), reader, id, born)
    }
  }

  lemma NobodyYet(tmp: seq<WmList?>, waiting: seq<bool>, lens: seq<nat>, mem: seq<seq<byte>>)
    requires |tmp| == |waiting| == |lens| && forall p :: 0 <= p < |tmp| ==> tmp[p] == null && !waiting[p]
    ensures Owners([], [], tmp, waiting, lens, []) && Quiet([], mem, [], [], map[])
  {
  }

  // ---- who owns an entry, on values

  /** Every entry belongs to the process that made the call and keeps the entry in its
      local variable; it is blocked exactly as long as the entry is incomplete (nobody
      wakes the owner of an entry that was complete from the start). */
  ghost predicate Owned(s: seq<Ent>, nodes: seq<WmList>, tmp: seq<WmList?>, waiting: seq<bool>, lens: seq<nat>, calls: seq<Call>) {
    && |s| == |nodes| && |tmp| == |waiting| == |lens|
    && (forall i :: 0 <= i < |s| ==>
          && 1 <= s[i].Owner() < |tmp| && tmp[s[i].Owner()] == nodes[i]
          && (waiting[s[i].Owner()] <==> !s[i].done || s[i].born) && (s[i].born ==> s[i].done)
          && s[i].id < |calls| && lens[s[i].Owner()] == calls[s[i].id].len)
  }

  /** A kept entry is in the list, and whoever is blocked keeps one. */
  ghost predicate Held(s: seq<Ent>, nodes: seq<WmList>, tmp: seq<WmList?>, waiting: seq<bool>)
    requires |s| == |nodes| && |tmp| == |waiting|
  {
    && (forall p :: 0 <= p < |tmp| && tmp[p] != null ==> exists i :: 0 <= i < |nodes| && nodes[i] == tmp[p] && s[i].Owner() == p)
    && (forall p :: 0 <= p < |tmp| && waiting[p] ==> tmp[p] != null)
  }

  ghost predicate Owners(s: seq<Ent>, nodes: seq<WmList>, tmp: seq<WmList?>, waiting: seq<bool>, lens: seq<nat>, calls: seq<Call>) {
    Owned(s, nodes, tmp, waiting, lens, calls) && Held(s, nodes, tmp, waiting)
  }

  /** A process without an entry of its own matches no entry of its own kind. */
  lemma NoOwnEntry(s: seq<Ent>, nodes: seq<WmList>, tmp: seq<WmList?>, waiting: seq<bool>, lens: seq<nat>, calls: seq<Call>, cur: nat)
    requires Owners(s, nodes, tmp, waiting, lens, calls) && cur < |tmp| && tmp[cur] == null
    ensures forall i :: 0 <= i < |s| ==> s[i].Owner() != cur && s[i].Owner() != 0
  {
  }

  lemma OwnersMoreCalls(s: seq<Ent>, nodes: seq<WmList>, tmp: seq<WmList?>, waiting: seq<bool>, lens: seq<nat>, calls: seq<Call>, c: Call)
    requires Owners(s, nodes, tmp, waiting, lens, calls)
    ensures Owners(s, nodes, tmp, waiting, lens, calls + [c])
  {
  }

  /** Waking the owner of an entry that is now complete. */
  lemma OwnersServe(s: seq<Ent>, nodes: seq<WmList>, tmp: seq<WmList?>, waiting: seq<bool>, lens: seq<nat>, calls: seq<Call>, k: nat,
                    n: nat)
    requires Owners(s, nodes, tmp, waiting, lens, calls) && k < |s| && n <= s[k].left && s[k].Owner() < |waiting| && !s[k].done
    requires forall i, j :: 0 <= i < j < |nodes| ==> nodes[i] != nodes[j]
    ensures var e := Served(s[k], n);
      Owners(s[k := e], nodes, tmp, if !e.block || e.left == 0 then waiting[e.Owner() := false] else waiting, lens, calls)
  {
    hide Served;
    ServedFacts(s[k], n);
    OwnersReplace(s, nodes, tmp, waiting, lens, calls, k, Served(s[k], n));
  }

  /** Entry `k` moved on, and its owner was woken if it is complete now. */
  lemma OwnersReplace(s: seq<Ent>, nodes: seq<WmList>, tmp: seq<WmList?>, waiting: seq<bool>, lens: seq<nat>, calls: seq<Call>, k: nat,
                      e: Ent)
    requires Owners(s, nodes, tmp, waiting, lens, calls) && k < |s| && s[k].Owner() < |waiting| && !s[k].done
    requires forall i, j :: 0 <= i < j < |nodes| ==> nodes[i] != nodes[j]
    requires e.Owner() == s[k].Owner() && e.id == s[k].id && e.born == s[k].born && (e.done <==> !e.block || e.left == 0)
    ensures Owners(s[k := e], nodes, tmp, if e.done then waiting[e.Owner() := false] else waiting, lens, calls)
  {
    var s', waiting' := s[k := e], if e.done then waiting[e.Owner() := false] else waiting;
    assert Owned(s', nodes, tmp, waiting', lens, calls) by {
      hide Held;
      forall i | 0 <= i < |s| && i != k
        ensures s[i].Owner() != s[k].Owner()
      {
        if i < k { assert nodes[i] != nodes[k]; } else { assert nodes[k] != nodes[i]; }
      }
    }
    HeldReplace(s, nodes, tmp, waiting, waiting', k, e);
  }

  lemma HeldReplace(s: seq<Ent>, nodes: seq<WmList>, tmp: seq<WmList?>, waiting: seq<bool>, waiting': seq<bool>, k: nat, e: Ent)
    requires |s| == |nodes| && |tmp| == |waiting| == |waiting'| && Held(s, nodes, tmp, waiting) && k < |s| && e.Owner() == s[k].Owner()
    requires forall p :: 0 <= p < |waiting| && waiting'[p] ==> waiting[p]
    ensures Held(s[k := e], nodes, tmp, waiting')
  {
    forall p | 0 <= p < |tmp| && tmp[p] != null
      ensures exists i :: 0 <= i < |nodes| && nodes[i] == tmp[p] && s[k := e][i].Owner() == p
    {
      var i :| 0 <= i < |nodes| && nodes[i] == tmp[p] && s[i].Owner() == p;
      assert s[k := e][i].Owner() == p;
    }
  }

  lemma OwnersPend(s: seq<Ent>, nodes: seq<WmList>, tmp: seq<WmList?>, waiting: seq<bool>, lens: seq<nat>, calls: seq<Call>, e: Ent,
                   t: WmList)
    requires Owners(s, nodes, tmp, waiting, lens, calls) && 1 <= e.Owner() < |tmp| && tmp[e.Owner()] == null && e.id < |calls|
    requires e.born == e.done
    ensures Owners(s + [e], nodes + [t], tmp[e.Owner() := t], waiting[e.Owner() := true], lens[e.Owner() := calls[e.id].len], calls)
  {
    NoOwnEntry(s, nodes, tmp, waiting, lens, calls, e.Owner());
    var s', nodes', tmp' := s + [e], nodes + [t], tmp[e.Owner() := t];
    forall p | 0 <= p < |tmp'| && tmp'[p] != null
      ensures exists i :: 0 <= i < |nodes'| && nodes'[i] == tmp'[p] && s'[i].Owner() == p
    {
      if p == e.Owner() {
        assert nodes'[|nodes|] == t && s'[|s|] == e;
      } else {
        var i :| 0 <= i < |nodes| && nodes[i] == tmp[p] && s[i].Owner() == p;
        assert nodes'[i] == tmp'[p] && s'[i].Owner() == p;
      }
    }
  }

  lemma OwnersRemove(s: seq<Ent>, nodes: seq<WmList>, tmp: seq<WmList?>, waiting: seq<bool>, lens: seq<nat>, calls: seq<Call>, i: nat,
                     cur: nat)
    requires Owners(s, nodes, tmp, waiting, lens, calls) && i < |s| && cur == s[i].Owner() && cur < |tmp| && !waiting[cur]
    requires forall i, j :: 0 <= i < j < |nodes| ==> nodes[i] != nodes[j]
    ensures Owners(RemoveAt(s, i), RemoveAt(nodes, i), tmp[cur := null], waiting, lens, calls)
  {
    var s', nodes', tmp' := RemoveAt(s, i), RemoveAt(nodes, i), tmp[cur := null];
    forall j | 0 <= j < |s| && j != i
      ensures s[j].Owner() != cur
    {
      if i < j { assert nodes[i] != nodes[j]; } else { assert nodes[j] != nodes[i]; }
    }
    forall p | 0 <= p < |tmp'| && tmp'[p] != null
      ensures exists j :: 0 <= j < |nodes'| && nodes'[j] == tmp'[p] && s'[j].Owner() == p
    {
      var j :| 0 <= j < |nodes| && nodes[j] == tmp[p] && s[j].Owner() == p;
      var l := if j < i then j else j - 1;
      assert nodes'[l] == tmp'[p] && s'[l].Owner() == p;
    }
  }

  /** The nodes hang on the head one behind the other. */
  ghost predicate Chained(nodes: seq<WmList>, head: WmList, first: WmList?, nexts: seq<WmList?>) {
    && |nexts| == |nodes| && head !in nodes
    && (forall i, j :: 0 <= i < j < |nodes| ==> nodes[i] != nodes[j])
    && first == (if |nodes| > 0 then nodes[0] else null)
    && (forall i, j :: 0 <= i < |nodes| && 0 <= j < |nodes| && j == i + 1 ==> nexts[i] == nodes[j])
    && (|nodes| > 0 ==> nexts[|nodes| - 1] == null)
  }

  /** The links once the one in front of node `i` goes past it. */
  ghost function NextsWithout(nexts: seq<WmList?>, i: nat): (r: seq<WmList?>)
    requires i < |nexts|
    ensures |r| == |nexts| - 1
  {
    var r := RemoveAt(nexts, i);
    if i == 0 then r else r[i - 1 := nexts[i]]
  }

  lemma ChainedRemove(nodes: seq<WmList>, head: WmList, first: WmList?, nexts: seq<WmList?>, i: nat)
    requires Chained(nodes, head, first, nexts) && i < |nodes|
    ensures Chained(RemoveAt(nodes, i), head, if i == 0 then nexts[0] else first, NextsWithout(nexts, i))
    ensures head !in nodes && forall j, k :: 0 <= j < k < |nodes| ==> nodes[j] != nodes[k]
  {
  }

  /** `t` is node `k`, or null behind the last one, and `ptmp` is in front of it. */
  ghost predicate Cursor(nodes: seq<WmList>, head: WmList, k: nat, ptmp: WmList, t: WmList?) {
    && k <= |nodes| && t == (if k < |nodes| then nodes[k] else null)
    && ptmp == (if k == 0 then head else nodes[k - 1])
  }

  lemma CursorAt(nodes: seq<WmList>, head: WmList, k: nat, ptmp: WmList, t: WmList?)
    requires Cursor(nodes, head, k, ptmp, t)
    ensures (if t == null then k == |nodes| else k < |nodes| && t == nodes[k]) && (ptmp == head || ptmp in nodes)
  {
  }

  class MessageQueue {
    const wmhead: WmList
    const mem: array<seq<byte>>      // user memory of each process
    const waiting: array<bool>       // the process is blocked
    const tmp: array<WmList?>        // the entry of a blocked call
    const lens: array<nat>           // and its `len`
    ghost var nodes: seq<WmList>
    ghost var calls: seq<Call>
    ghost var log: seq<Transfer>
    ghost var results: map<nat, seq<byte>>

    ghost function Snap(): (s: seq<Ent>)
      reads this`nodes, nodes
      ensures |s| == |nodes|
      ensures forall i :: 0 <= i < |s| ==> s[i] == nodes[i].Val()
    {
      var ns := nodes;
      seq(|ns|, i requires 0 <= i < |ns| reads ns => ns[i].Val())
    }

    ghost function Nexts(): (s: seq<WmList?>)
      reads this`nodes, nodes
      ensures |s| == |nodes|
      ensures forall i :: 0 <= i < |s| ==> s[i] == nodes[i].next
    {
      var ns := nodes;
      seq(|ns|, i requires 0 <= i < |ns| reads ns => ns[i].next)
    }

    ghost predicate Linked()
      reads this`nodes, wmhead, nodes
    {
      Chained(nodes, wmhead, wmhead.next, Nexts())
    }

    ghost predicate Valid()
      reads this, wmhead, nodes, mem, waiting, tmp, lens
    {
      && Linked()
      && Owners(Snap(), nodes, tmp[..], waiting[..], lens[..], calls)
      && mem.Length == waiting.Length == tmp.Length == lens.Length
      && Quiet(Snap(), mem[..], log, calls, results)
    }

    constructor (memories: seq<seq<byte>>)
      ensures Valid() && mem[..] == memories && nodes == [] && log == [] && calls == [] && results == map[]
      ensures fresh(mem) && fresh(waiting) && fresh(tmp) && fresh(lens) && fresh(wmhead)
      ensures forall p :: 0 <= p < waiting.Length ==> !waiting[p] && tmp[p] == null
    {
      hide Owners, Quiet;
      wmhead := new WmList(0, 0, 0, 0, 0, false, 0);
      mem := new seq<byte>[|memories|](i requires 0 <= i < |memories| => memories[i]);
      waiting := new bool[|memories|](_ => false);
      tmp := new WmList?[|memories|](_ => null);
      lens := new nat[|memories|](_ => 0);
      nodes, calls, log, results := [], [], [], map[];
      new;
      NobodyYet(tmp[..], waiting[..], lens[..], mem[..]);
    }

    /** Lines 66-72 and 116-122: the entry moves on, and its owner is woken when it is complete. */
    method Serve(t: WmList, n: nat, who: nat)
      requires n <= t.left && who < waiting.Length
      modifies t`left, t`buff, t`flags, waiting
      ensures t.Val() == Served(old(t.Val()), n)
      ensures waiting[..] == if !t.Val().block || t.left == 0 then old(waiting[..])[who := false] else old(waiting[..])
    {
      t.left := t.left - n;
      t.buff := t.buff + n;
      if !IsBlock(t.flags) || t.left == 0 {
        t.flags := Complete(t.flags);
        waiting[who] := false;
      }
    }

    /** The entries and the links of the list, from those of its nodes. */
    lemma ListIs(s: seq<Ent>, nexts: seq<WmList?>)
      requires |s| == |nexts| == |nodes|
      requires forall i :: 0 <= i < |nodes| ==> nodes[i].Val() == s[i] && nodes[i].next == nexts[i]
      ensures Snap() == s && Nexts() == nexts
    {
    }

    /** `umemcpy` between the buffers of a call and of an entry. */
    method UserCopy(dpid: nat, dest: nat, spid: nat, src: nat, n: nat)
      requires dpid < mem.Length && spid < mem.Length && dest + n <= |mem[dpid]| && src + n <= |mem[spid]|
      modifies mem
      ensures mem[..] == old(mem[..])[dpid := Splice(old(mem[dpid]), dest, old(mem[spid])[src..src + n])]
      ensures Moves(old(mem[..]), mem[..], dpid, dest, spid, src, n)
    {
      SplicedMoves(mem[..], dpid, dest, spid, src, n);
      mem[dpid] := Splice(mem[dpid], dest, mem[spid][src..src + n]);
    }

    /** The end of both calls when no entry is left to serve: the call joins the list
        and its process blocks (`block` leaves process 0 alone, which makes no calls). */
    method Pend(ptmp: WmList, cur: nat, from: nat, to: nat, b: nat, left: nat, len: nat, flags: nat, ghost s: seq<Ent>, ghost act: Ent)
      requires Walking(s, act, cur) && Cursor(nodes, wmhead, |nodes|, ptmp, null)
      requires act == Ent(from, to, b, left, IsBlock(flags), false, act.reader, act.id, false)
      requires act.id < |calls| && calls[act.id].len == len && SettledTo(s, act, |nodes|)
      modifies this`nodes, ptmp, waiting, tmp, lens
      ensures Valid() && waiting[cur] && tmp[cur] != null && lens[cur] == len && fresh(tmp[cur])
      ensures tmp[cur].left == left && tmp[cur].buff == b
      ensures nodes == old(nodes) + [tmp[cur]] && Snap() == s + [act.(done := IsComplete(flags), born := IsComplete(flags))]
      ensures forall p :: 0 <= p < waiting.Length && p != cur ==> waiting[p] == old(waiting[p]) && tmp[p] == old(tmp[p])
    {
      hide Owners, Sound, Quiet, Settled, Linked;
      Enqueue(s, act, mem[..], log, calls, results, IsComplete(flags));
      ghost var e := act.(done := IsComplete(flags), born := IsComplete(flags));
      var t := new WmList(from, to, b, left, flags, act.reader, act.id);
      OwnersPend(s, nodes, tmp[..], waiting[..], lens[..], calls, e, t);
      Link(ptmp, t);
      waiting[cur] := true;
      tmp[cur] := t;
      lens[cur] := len;
    }

    method Link(ptmp: WmList, t: WmList)
      requires Linked() && ptmp == (if |nodes| == 0 then wmhead else nodes[|nodes| - 1])
      requires t !in nodes && t != wmhead && t.next == null
      modifies this`nodes, ptmp`next
      ensures Linked() && nodes == old(nodes) + [t] && Snap() == old(Snap()) + [t.Val()]
    {
      ghost var ns, s := nodes, Snap();
      ptmp.next := t;
      nodes := nodes + [t];
      assert forall i :: 0 <= i < |ns| ==> nodes[i] == ns[i] && nodes[i].Val() == s[i];
    }

    /** What holds while the call of `act`, by process `cur`, walks the list. */
    ghost predicate Walking(s: seq<Ent>, act: Ent, cur: nat)
      reads this, wmhead, nodes, mem, waiting, tmp, lens
    {
      && s == Snap() && Linked() && Owners(s, nodes, tmp[..], waiting[..], lens[..], calls)
      && mem.Length == waiting.Length == tmp.Length == lens.Length
      && Sound(s, act, mem[..], log, calls, results)
      && 1 <= cur < mem.Length && !waiting[cur] && tmp[cur] == null && cur == act.Owner()
    }

    lemma MeetFacts(s: seq<Ent>, act: Ent, cur: nat, k: nat, n: nat)
      requires Walking(s, act, cur) && k < |nodes| && n <= nodes[k].left && n <= act.left && Fits(s[k], act) && !s[k].done
      ensures nodes[k] != wmhead && forall i, j :: 0 <= i < j < |nodes| ==> nodes[i] != nodes[j]
      ensures var e, m := s[k], mem[..];
        var e' := Served(e, n);
        && e.reader != act.reader && Room(e, act, n, m) && 1 <= e.Owner() < |m| && e.Owner() != cur
        && e.buff + n <= |m[e.Owner()]| && act.buff + n <= |m[cur]|
        && MemAfter(e, act, n, m) == (if act.reader then m[cur := Splice(m[cur], act.buff, m[e.from][e.buff..e.buff + n])]
                                      else m[e.to := Splice(m[e.to], e.buff, m[cur][act.buff..act.buff + n])])
        && Sound(s[k := e'], Advance(act, n), MemAfter(e, act, n, m), log + [Give(e, act, n, m)], calls, results)
        && Owners(s[k := e'], nodes, tmp[..],
                  if !e'.block || e'.left == 0 then waiting[..][e.Owner() := false] else waiting[..], lens[..], calls)
        && e'.block == e.block && e'.left == e.left - n && Advance(act, n).Owner() == cur
    {
      hide Owners, Sound, Moved, Give, MemAfter, Room;
      var m := mem[..];
      NoOwnEntry(s, nodes, tmp[..], waiting[..], lens[..], calls, cur);
      HasRoom(s, act, k, n, m, log, calls, results);
      RoomMeans(s[k], act, n, m);
      ServeKeeps(s, act, k, n, m, log, calls, results);
      OwnersServe(s, nodes, tmp[..], waiting[..], lens[..], calls, k, n);
    }

    /** The bytes are copied and the entry moves on. */
    method Exchange(t: WmList, n: nat, cur: nat, b: nat, reading: bool)
      requires n <= t.left && (if reading then t.from else t.to) < mem.Length && cur < mem.Length == waiting.Length
      requires b + n <= |mem[cur]| && t.buff + n <= |mem[if reading then t.from else t.to]|
      modifies t`left, t`buff, t`flags, waiting, mem
      ensures t.Val() == Served(old(t.Val()), n)
      ensures mem[..] == var m := old(mem[..]);
        if reading then m[cur := Splice(m[cur], b, m[t.from][old(t.buff)..old(t.buff) + n])]
        else m[t.to := Splice(m[t.to], old(t.buff), m[cur][b..b + n])]
      ensures waiting[..] == var w := old(waiting[..]);
        if !t.Val().block || t.left == 0 then w[if reading then t.from else t.to := false] else w
      ensures if reading then Moves(old(mem[..]), mem[..], cur, b, t.from, old(t.buff), n)
              else Moves(old(mem[..]), mem[..], t.to, old(t.buff), cur, b, n)
    {
      hide Moves;
      if reading {
        UserCopy(cur, b, t.from, t.buff, n);
        Serve(t, n, t.from);
      } else {
        UserCopy(t.to, t.buff, cur, b, n);
        Serve(t, n, t.to);
      }
    }

    /** Lines 62-72 and 112-122: `n` bytes go between the call and the entry `t`. */
    method Meet(t: WmList, n: nat, cur: nat, b: nat, reading: bool, ghost k: nat, ghost s: seq<Ent>, ghost act: Ent)
      requires Walking(s, act, cur) && k < |nodes| && t == nodes[k]
      requires act.reader == reading && act.buff == b && n <= t.left && n <= act.left && Fits(s[k], act) && !s[k].done
      modifies this`log, t`left, t`buff, t`flags, waiting, mem
      ensures Walking(s[k := Served(s[k], n)], Advance(act, n), cur) && Later(old(log), log)
      ensures if reading then Moves(old(mem[..]), mem[..], cur, b, t.from, old(t.buff), n)
              else Moves(old(mem[..]), mem[..], t.to, old(t.buff), cur, b, n)
      ensures forall i :: 0 <= i < |nodes| ==> nodes[i].next == old(nodes[i].next)
    {
      hide Owners, Sound, Chained, Moved, Served, Give, MemAfter, Room, Later, Fits, Advance, Moves;
      ghost var nexts, m := Nexts(), mem[..];
      MeetFacts(s, act, cur, k, n);
      LaterOne(log, Give(s[k], act, n, m));
      log := log + [Give(s[k], act, n, m)];
      Exchange(t, n, cur, b, reading);
      ListIs(s[k := Served(s[k], n)], nexts);
    }

    /** Lines 62-72: a reader takes what it can from a matching entry. */
    method TakeFrom(t: WmList, cur: nat, from: nat, b: nat, left: nat, ghost k: nat, ghost s: seq<Ent>, ghost act: Ent,
                    ghost log0: seq<Transfer>)
      returns (n: nat)
      requires Walking(s, act, cur) && k < |nodes| && k < |s| && t == nodes[k] && s[k] == t.Val() && s[k].Owner() != cur
      requires act.reader && act.buff == b && act.left == left && act.to == cur && act.from == from
      requires t.to == cur && (t.from == from || from == 0) && !s[k].done && SettledTo(s, act, k) && Later(log0, log)
      modifies this`log, t`left, t`buff, t`flags, waiting, mem
      ensures n <= left && n <= s[k].left && Walking(s[k := Served(s[k], n)], Advance(act, n), cur)
      ensures n < left ==> SettledTo(s[k := Served(s[k], n)], Advance(act, n), k + 1)
      ensures var s', act' := s[k := Served(s[k], n)], Advance(act, n);
        Walk(s, act, k) == if !act.block || act'.left == 0 then (s', act', true) else Walk(s', act', k + 1)
      ensures Moves(old(mem[..]), mem[..], cur, b, t.from, old(t.buff), n)
      ensures Later(log0, log) && forall i :: 0 <= i < |nodes| ==> nodes[i].next == old(nodes[i].next)
    {
      hide Walking, SettledTo, Served, Fits, Later, Complete, Walk, Moves;
      FitsRead(s, k, act);
      WalkServe(s, act, k);
      n := if left < t.left then left else t.left;
      SettledAfter(s, k, act, n);
      ghost var log1 := log;
      Meet(t, n, cur, b, true, k, s, act);
      LaterStill(log0, log1, log);
    }

    /** Lines 54-80: the walk of a reader, up to the entry that makes it content or to the end
        of the list. */
    method WalkRead(cur: nat, from: nat, buff: nat, len: nat, flags: nat, ghost id: nat, ghost s0: seq<Ent>)
      returns (left: nat, b: nat, ptmp: WmList, content: bool, ghost s: seq<Ent>, ghost act: Ent)
      requires Walking(s0, Ent(from, cur, buff, len, IsBlock(flags), false, true, id, false), cur)
      modifies this`log, nodes, waiting, mem
      ensures Walking(s, act, cur) && act == Ent(from, cur, b, left, IsBlock(flags), false, true, id, false)
      ensures left <= len && b == buff + (len - left) && Later(old(log), log)
      ensures Walk(s0, Ent(from, cur, buff, len, IsBlock(flags), false, true, id, false), 0) == (s, act, content)
      ensures !content ==> Cursor(nodes, wmhead, |nodes|, ptmp, null) && SettledTo(s, act, |nodes|)
      ensures ptmp == wmhead || ptmp in nodes
      ensures OnlyAt(old(mem[..]), mem[..], cur, buff, b)
    {
      hide Valid, Walking, SettledTo, Served, Fits, Later, Complete, Cursor, Walk, Moves, OnlyAt;
      ghost var k, log0, mem0 := 0, log, mem[..];
      CallerExists(s0, Ent(from, cur, buff, len, IsBlock(flags), false, true, id, false), cur);
      NothingYet(mem[..], cur, buff, s0);
      s, act := s0, Ent(from, cur, buff, len, IsBlock(flags), false, true, id, false);
      HeadFacts(s, act, cur);
      LaterStill(log, log, log);
      ptmp, left, b := wmhead, len, buff;
      var t: WmList? := wmhead.next;
      while t != null
        invariant k <= |nodes| == |s| && Cursor(nodes, wmhead, k, ptmp, t)
        invariant act == Ent(from, cur, b, left, IsBlock(flags), false, true, id, false) && left <= len && b == buff + (len - left)
        invariant Walking(s, act, cur) && Later(log0, log) && OnlyAt(mem0, mem[..], cur, buff, b)
        invariant SettledTo(s, act, k) && Walk(s, act, k) == Walk(s0, Ent(from, cur, buff, len, IsBlock(flags), false, true, id, false), 0)
        decreases |nodes| - k
      {
        CursorAt(nodes, wmhead, k, ptmp, t);
        WalkFacts(s, act, cur, k);
        if t.to == cur && (t.from == from || from == 0) && !IsComplete(t.flags) {
          ghost var mem1, src := mem[..], t.buff;
          var n := TakeFrom(t, cur, from, b, left, k, s, act, log0);
          OnlyMore(mem0, mem1, mem[..], cur, buff, b, t.from, src, n);
          left := left - n;
          b := b + n;
          s, act := s[k := Served(s[k], n)], Advance(act, n);
          if !IsBlock(flags) || left == 0 {
            content := true;
            return;
          }
        } else {
          NoFitRead(s, k, act);
        }
        ptmp := t;
        t := t.next;
        k := k + 1;
      }
      CursorAt(nodes, wmhead, k, ptmp, t);
      WalkEnd(s, act, k);
      content := false;
    }

    /** msg.c `msg_read`, up to its return or to the point where it blocks (None). */
    method MsgRead(cur: nat, from: nat, buff: nat, len: nat, flags: nat) returns (r: Option<nat>)
      requires Valid() && 1 <= cur < mem.Length && !waiting[cur] && tmp[cur] == null && buff + len <= |mem[cur]|
      modifies this, wmhead, nodes, mem, waiting, tmp, lens
      ensures Valid()
      ensures calls == old(calls) + [Call(true, cur, from, buff, len, [])] && Later(old(log), log)
      ensures r.Some? ==>
        && Carried(mem[cur], buff, r.value, len, Moved(log, |old(calls)|, true))
        && results == old(results)[|old(calls)| := Moved(log, |old(calls)|, true)] && tmp[cur] == null
      ensures r.None? ==> waiting[cur] && tmp[cur] != null && lens[cur] == len && results == old(results)
      ensures Outcome(Walk(old(Snap()), Ent(from, cur, buff, len, flags % 2 == 1, false, true, |old(calls)|, false), 0), Snap(), r,
        len, flags / 2 % 2 == 1)
      ensures forall p :: 0 <= p < mem.Length && p != cur ==> mem[p] == old(mem[p])
      ensures |mem[cur]| == |old(mem[cur])|
      ensures r.None? ==> tmp[cur].left <= len
      ensures var n := if r.Some? then r.value else len - tmp[cur].left;
        forall x :: 0 <= x < |mem[cur]| && !(buff <= x < buff + n) ==> mem[cur][x] == old(mem[cur])[x]
      ensures forall i :: 0 <= i < |nodes| ==> nodes[i] in old(nodes) || fresh(nodes[i])
    {
      hide Valid, Walking, SettledTo, Moved, Carried, Later, Complete, Cursor, Walk, Outcome, Served;
      ghost var c := Call(true, cur, from, buff, len, []);
      ghost var id := |calls|;
      ghost var s0 := Begin(c, IsBlock(flags));
      var left, b, ptmp, content, s, act := WalkRead(cur, from, buff, len, flags, id, s0);
      Outcomes(s, act, len, IsComplete(flags));
      if content {
        End(s, act, cur, c);
        r := Some(len - left);
      } else {
        Pend(ptmp, cur, from, cur, b, left, len, flags, s, act);
        r := None;
      }
    }

    /** Lines 112-122: a writer gives what it can to a matching entry. The copy is bounded
        by `len`; nothing was sent before, for there is at most one reader to send to. */
    method SendTo(t: WmList, cur: nat, to: nat, b: nat, left: nat, len: nat, ghost k: nat, ghost s: seq<Ent>, ghost act: Ent,
                  ghost log0: seq<Transfer>)
      returns (n: nat)
      requires Walking(s, act, cur) && k < |nodes| == |s| && t == nodes[k] && s[k] == t.Val() && s[k].Owner() != cur && s[k].Owner() != 0
      requires !act.reader && act.buff == b && act.left == left && act.from == cur && act.to == to
      requires (t.from == cur || t.from == 0) && t.to == to && !s[k].done && SettledTo(s, act, k) && Later(log0, log)
      requires left == len || OneReader(s, k, to)
      modifies this`log, t`left, t`buff, t`flags, waiting, mem
      ensures n <= left && n <= s[k].left && Walking(s[k := Served(s[k], n)], Advance(act, n), cur)
      ensures n < left ==> SettledTo(s[k := Served(s[k], n)], Advance(act, n), k + 1)
      ensures OneReader(s[k := Served(s[k], n)], k + 1, to)
      ensures var s', act' := s[k := Served(s[k], n)], Advance(act, n);
        Walk(s, act, k) == if !act.block || act'.left == 0 then (s', act', true) else Walk(s', act', k + 1)
      ensures Moves(old(mem[..]), mem[..], to, old(t.buff), cur, b, n)
      ensures Later(log0, log) && forall i :: 0 <= i < |nodes| ==> nodes[i].next == old(nodes[i].next)
    {
      hide Walking, SettledTo, Served, Fits, Later, Complete, Walk, OneReader, Moves;
      FitsWrite(s, k, act);
      n := if len < t.left then len else t.left;
      WalkServe(s, act, k);
      SettledAfter(s, k, act, n);
      ReaderIsAlone(s, act, cur, k, n);
      ghost var log1 := log;
      Meet(t, n, cur, b, false, k, s, act);
      LaterStill(log0, log1, log);
    }

    /** Lines 104-130: the walk of a writer, up to the entry that makes it content or to the end
        of the list. */
    method WalkWrite(cur: nat, to: nat, buff: nat, len: nat, flags: nat, ghost id: nat, ghost s0: seq<Ent>)
      returns (left: nat, b: nat, ptmp: WmList, content: bool, ghost s: seq<Ent>, ghost act: Ent)
      requires Walking(s0, Ent(cur, to, buff, len, IsBlock(flags), false, false, id, false), cur)
      modifies this`log, nodes, waiting, mem
      ensures Walking(s, act, cur) && act == Ent(cur, to, b, left, IsBlock(flags), false, false, id, false)
      ensures left <= len && b == buff + (len - left) && Later(old(log), log)
      ensures Walk(s0, Ent(cur, to, buff, len, IsBlock(flags), false, false, id, false), 0) == (s, act, content)
      ensures !content ==> Cursor(nodes, wmhead, |nodes|, ptmp, null) && SettledTo(s, act, |nodes|)
      ensures ptmp == wmhead || ptmp in nodes
      ensures OnlyReceived(old(mem[..]), mem[..], s0, s)
    {
      hide Valid, Walking, SettledTo, Served, Fits, Later, Complete, Cursor, Walk, OneReader, Moves, OnlyReceived;
      ghost var k, log0, mem0 := 0, log, mem[..];
      NothingYet(mem[..], cur, buff, s0);
      s, act := s0, Ent(cur, to, buff, len, IsBlock(flags), false, false, id, false);
      HeadFacts(s, act, cur);
      LaterStill(log, log, log);
      ptmp, left, b := wmhead, len, buff;
      var t: WmList? := wmhead.next;
      while t != null
        invariant k <= |nodes| == |s| && Cursor(nodes, wmhead, k, ptmp, t)
        invariant act == Ent(cur, to, b, left, IsBlock(flags), false, false, id, false) && left <= len && b == buff + (len - left)
        invariant Walking(s, act, cur) && Later(log0, log) && OnlyReceived(mem0, mem[..], s0, s)
        invariant SettledTo(s, act, k) && Walk(s, act, k) == Walk(s0, Ent(cur, to, buff, len, IsBlock(flags), false, false, id, false), 0)
        invariant left == len || OneReader(s, k, to)
        decreases |nodes| - k
      {
        CursorAt(nodes, wmhead, k, ptmp, t);
        WalkFacts(s, act, cur, k);
        if (t.from == cur || t.from == 0) && t.to == to && !IsComplete(t.flags) {
          ghost var mem1 := mem[..];
          FitsWrite(s, k, act);
          var n := SendTo(t, cur, to, b, left, len, k, s, act, log0);
          ServedFacts(s[k], n);
          ReceivedMore(mem0, mem1, mem[..], s0, s, k, Served(s[k], n), cur, b, n);
          left := left - n;
          b := b + n;
          s, act := s[k := Served(s[k], n)], Advance(act, n);
          if !IsBlock(flags) || left == 0 {
            content := true;
            return;
          }
        } else {
          NoFitWrite(s, k, act);
        }
        ptmp := t;
        t := t.next;
        k := k + 1;
      }
      CursorAt(nodes, wmhead, k, ptmp, t);
      WalkEnd(s, act, k);
      content := false;
    }

    /** msg.c `msg_write`, up to its return or to the point where it blocks (None). The
        copy is bounded by `len`, not by `left`; at most one entry can match, so they agree. */
    method MsgWrite(cur: nat, to: nat, buff: nat, len: nat, flags: nat) returns (r: Option<nat>)
      requires Valid() && 1 <= cur < mem.Length && !waiting[cur] && tmp[cur] == null && buff + len <= |mem[cur]|
      modifies this, wmhead, nodes, mem, waiting, tmp, lens
      ensures Valid()
      ensures calls == old(calls) + [Call(false, cur, to, buff, len, old(mem[cur])[buff..buff + len])] && Later(old(log), log)
      ensures r.Some? ==>
        && Carried(mem[cur], buff, r.value, len, Moved(log, |old(calls)|, false))
        && results == old(results)[|old(calls)| := Moved(log, |old(calls)|, false)] && tmp[cur] == null
      ensures r.None? ==> waiting[cur] && tmp[cur] != null && lens[cur] == len && results == old(results)
      ensures Outcome(Walk(old(Snap()), Ent(cur, to, buff, len, flags % 2 == 1, false, false, |old(calls)|, false), 0), Snap(), r, len,
        flags / 2 % 2 == 1)
      ensures |old(nodes)| <= |nodes| && forall p :: 0 <= p < mem.Length ==> |mem[p]| == |old(mem[p])|
      ensures OnlyReceived(old(mem[..]), mem[..], old(Snap()), Snap())
      ensures forall p, x :: 0 <= p < mem.Length && 0 <= x < |mem[p]| && mem[p][x] != old(mem[p])[x] ==>
        exists i :: 0 <= i < |old(nodes)| && old(Snap())[i].reader && old(Snap())[i].to == p && old(Snap())[i].buff <= x < Snap()[i].buff
      ensures forall i :: 0 <= i < |nodes| ==> nodes[i] in old(nodes) || fresh(nodes[i])
    {
      hide Valid, Walking, SettledTo, Moved, Carried, Later, Complete, Cursor, Walk, Outcome, Served, OnlyReceived;
      ghost var c := Call(false, cur, to, buff, len, mem[cur][buff..buff + len]);
      ghost var id := |calls|;
      ghost var s0 := Begin(c, IsBlock(flags));
      var left, b, ptmp, content, s, act := WalkWrite(cur, to, buff, len, flags, id, s0);
      Outcomes(s, act, len, IsComplete(flags));
      if content {
        End(s, act, cur, c);
        r := Some(len - left);
      } else {
        Pend(ptmp, cur, cur, to, b, left, len, flags, s, act);
        r := None;
        ReceivedLonger(old(mem[..]), mem[..], s0, s, Snap());
      }
      ReceivedMeans(old(mem[..]), mem[..], s0, Snap());
    }

    lemma ReaderIsAlone(s: seq<Ent>, act: Ent, cur: nat, k: nat, n: nat)
      requires Walking(s, act, cur) && k < |s| && s[k].reader && n <= s[k].left
      ensures OneReader(s[k := Served(s[k], n)], k + 1, s[k].to)
    {
      hide Owners, EntOk, LogOk, ResultsOk, NoMeet;
      var all := s + [act];
      forall i | k < i < |s| && s[i].reader
        ensures s[i].to != s[k].to
      {
        assert all[i].Owner() != all[k].Owner();
      }
    }

    /** Both calls after `block` returned: the process takes its entry out of the list
        and answers how much of `len` is gone from `left`. */
    method Resume(cur: nat) returns (ret: nat, ghost id: nat)
      requires Valid() && cur < mem.Length && !waiting[cur] && tmp[cur] != null
      modifies this`nodes, this`results, wmhead, nodes, tmp
      ensures Valid() && tmp[..] == old(tmp[..])[cur := null] && forall i :: 0 <= i < |nodes| ==> nodes[i] in old(nodes)
      ensures exists i: nat :: i < |old(nodes)| && old(nodes)[i] == old(tmp[cur]) && nodes == RemoveAt(old(nodes), i)
                            && Snap() == RemoveAt(old(Snap()), i) && old(Snap())[i].Owner() == cur && old(Snap())[i].id == id
      ensures id < |calls| && calls[id].pid == cur && id !in old(results)
      ensures results == old(results)[id := Moved(log, id, calls[id].reader)]
      ensures Carried(mem[cur], calls[id].buff, ret, calls[id].len, Moved(log, id, calls[id].reader))
      ensures mem[..] == old(mem[..])
    {
      hide Owners, Quiet, Sound, Moved, Carried, Linked;
      var t := tmp[cur];
      ghost var i := EntryOf(cur);
      ghost var s := Snap();
      ghost var e := s[i];
      ResumeFacts(i, cur);
      id := e.id;
      ret := lens[cur] - t.left;
      TakeOut(s, i, mem[..], log, calls, results);
      Finish(RemoveAt(s, i), e, mem[..], log, calls, results);
      var ptmp := Before(t, i);
      OwnersRemove(s, nodes, tmp[..], waiting[..], lens[..], calls, i, cur);
      Unlink(ptmp, t, i);
      tmp[cur] := null;
      results := results[id := Moved(log, id, calls[id].reader)];
      CarriedIs(mem[cur], calls[id].buff, ret, calls[id].len, Moved(log, id, calls[id].reader));
    }

    /** Where the entry of a process is in the list. */
    ghost function EntryOf(cur: nat): (i: nat)
      requires Valid() && cur < mem.Length && tmp[cur] != null
      reads this, wmhead, nodes, mem, waiting, tmp, lens
      ensures i < |nodes| && nodes[i] == tmp[cur] && Snap()[i].Owner() == cur
    {
      hide Quiet, Linked;
      var i :| 0 <= i < |nodes| && nodes[i] == tmp[cur] && Snap()[i].Owner() == cur;
      i
    }

    lemma ResumeFacts(i: nat, cur: nat)
      requires Valid() && i < |nodes| && cur < mem.Length && nodes[i] == tmp[cur] && Snap()[i].Owner() == cur
      ensures var e := Snap()[i];
        && e.id < |calls| && calls[e.id].pid == cur && calls[e.id].reader == e.reader && e.id !in results
        && lens[cur] == calls[e.id].len && e.left <= lens[cur]
      ensures forall j, l :: 0 <= j < l < |nodes| ==> nodes[j] != nodes[l]
    {
      hide Moved;
      assert EntOk(Snap()[i], mem[..], log, calls);
    }

    /** The node in front of `t`. */
    method Before(t: WmList, ghost i: nat) returns (ptmp: WmList)
      requires Linked() && i < |nodes| && t == nodes[i]
      ensures ptmp == if i == 0 then wmhead else nodes[i - 1]
    {
      ghost var nexts := Nexts();
      ptmp := wmhead;
      ghost var k := 0;
      while ptmp.next != t
        invariant 0 <= k <= i && ptmp == (if k == 0 then wmhead else nodes[k - 1]) && ptmp.next == nodes[k]
        decreases i - k
      {
        assert nodes[k].next == nexts[k];
        ptmp := ptmp.next;
        k := k + 1;
      }
    }

    method Unlink(ptmp: WmList, t: WmList, ghost i: nat)
      requires Linked() && i < |nodes| && t == nodes[i] && ptmp == (if i == 0 then wmhead else nodes[i - 1])
      modifies this`nodes, ptmp`next
      ensures Linked() && nodes == RemoveAt(old(nodes), i) && Snap() == RemoveAt(old(Snap()), i)
    {
      hide Chained;
      ghost var ns, s, nexts := nodes, Snap(), Nexts();
      ChainedRemove(ns, wmhead, wmhead.next, nexts, i);
      ptmp.next := t.next;
      nodes := RemoveAt(nodes, i);
      ListIs(RemoveAt(s, i), NextsWithout(nexts, i));
    }

    /** A running process that is in no call writes to its own memory. */
    method Store(cur: nat, at: nat, bytes: seq<byte>)
      requires Valid() && cur < mem.Length && tmp[cur] == null && at + |bytes| <= |mem[cur]|
      modifies mem
      ensures Valid() && |mem[cur]| == |old(mem[cur])| && forall p :: 0 <= p < mem.Length && p != cur ==> mem[p] == old(mem[p])
      ensures forall x :: 0 <= x < |mem[cur]| ==> mem[cur][x] == if at <= x < at + |bytes| then bytes[x - at] else old(mem[cur])[x]
    {
      hide Owners, Quiet;
      NoOwnEntry(Snap(), nodes, tmp[..], waiting[..], lens[..], calls, cur);
      StoreKeeps(Snap(), mem[..], log, calls, results, cur, Splice(mem[cur], at, bytes));
      mem[cur] := Splice(mem[cur], at, bytes);
    }

    lemma Sizes()
      requires Valid()
      ensures mem.Length == waiting.Length == tmp.Length == lens.Length
    {
    }

    /** What the processes see of the state, and the pending entries. */
    ghost function Now(): (w: World)
      reads this, nodes, mem, waiting, tmp
    {
      var ts := tmp;
      World(mem[..], waiting[..], seq(ts.Length, p requires 0 <= p < ts.Length reads ts => ts[p] != null), Snap(), calls, results)
    }

    /** One step of process `op.pid`, if it is not blocked and in the right place for it. */
    method Step(op: Op)
      requires Valid()
      modifies this, wmhead, nodes, mem, waiting, tmp, lens
      ensures Valid() && Later(old(log), log) && forall i :: 0 <= i < |nodes| ==> nodes[i] in old(nodes) || fresh(nodes[i])
      ensures Stepped(old(Now()), op, Now())
    {
      hide Valid, Later, Stepped;
      Sizes();
      LaterStill(log, log, log);
      ghost var w := Now();
      if 1 <= op.pid < mem.Length && !waiting[op.pid] {
        if op.Resumption? {
          if tmp[op.pid] != null {
            var ret, id := Resume(op.pid);
            ResumeStep(w, op, Now(), id);
            return;
          }
        } else if tmp[op.pid] == null && op.buff + op.Len() <= |mem[op.pid]| {
          if op.Storing? {
            Store(op.pid, op.buff, op.bytes);
            StoreStep(w, op, Now());
          } else {
            CallNow(op);
          }
          return;
        }
      }
      NoStep(w, op);
    }

    method CallNow(op: Op)
      requires Valid() && CanStep(Now(), op) && (op.Reading? || op.Writing?)
      modifies this, wmhead, nodes, mem, waiting, tmp, lens
      ensures Valid() && Later(old(log), log) && forall i :: 0 <= i < |nodes| ==> nodes[i] in old(nodes) || fresh(nodes[i])
      ensures Stepped(old(Now()), op, Now())
    {
      hide Valid, Later, Stepped, Walk, Outcome, Moved, Carried, OnlyReceived;
      Sizes();
      ghost var w := Now();
      if op.Reading? {
        var r := MsgRead(op.pid, op.peer, op.buff, op.len, op.flags);
        CarriedAtMost(mem[op.pid], op.buff, r, op.len, Moved(log, |w.calls|, true));
        CallStep(w, op, Now(), r, Moved(log, |w.calls|, true));
      } else {
        var r := MsgWrite(op.pid, op.peer, op.buff, op.len, op.flags);
        CarriedAtMost(mem[op.pid], op.buff, r, op.len, Moved(log, |w.calls|, false));
        CallStep(w, op, Now(), r, Moved(log, |w.calls|, false));
      }
    }

    /** Any processes making any calls in any order; `hist` is the state before each step and at
        the end. A byte of memory changed only if its process stored to it, or if it lies in the
        buffer of a call of its process that reads. */
    method Run(ops: seq<Op>) returns (ghost hist: seq<World>)
      requires Valid()
      modifies this, wmhead, nodes, mem, waiting, tmp, lens
      ensures Valid() && Later(old(log), log) && forall i :: 0 <= i < |nodes| ==> nodes[i] in old(nodes) || fresh(nodes[i])
      ensures |hist| == |ops| + 1 && hist[0] == old(Now()) && hist[|ops|] == Now()
      ensures forall k, l :: 0 <= k < |ops| && l == k + 1 ==> Stepped(hist[k], ops[k], hist[l])
      ensures forall p :: 0 <= p < mem.Length ==> |mem[p]| == |old(mem[p])|
      ensures forall p, x :: 0 <= p < mem.Length && 0 <= x < |mem[p]| && mem[p][x] != old(mem[p])[x] ==>
        || (exists k :: 0 <= k < |ops| && ops[k].Storing? && ops[k].pid == p && ops[k].buff <= x < ops[k].buff + |ops[k].bytes|)
        || (exists id :: 0 <= id < |calls| && calls[id].reader && calls[id].pid == p
                         && calls[id].buff <= x < calls[id].buff + calls[id].len)
    {
      hide Valid, Later, Stepped, OnlyNamed, Now, Quiet;
      NowIs();
      ghost var log0, w0 := log, Now();
      LaterStill(log, log, log);
      hist := [w0];
      NamedNone(w0.mem, w0.calls, ops);
      for i := 0 to |ops|
        invariant Valid() && Later(log0, log) && |hist| == i + 1 && hist[0] == w0 && hist[i] == Now()
        invariant forall i :: 0 <= i < |nodes| ==> nodes[i] in old(nodes) || fresh(nodes[i])
        invariant forall k, l :: 0 <= k < i && l == k + 1 ==> Stepped(hist[k], ops[k], hist[l])
        invariant OnlyNamed(w0.mem, Now().mem, Now().calls, ops, i)
      {
        ghost var log1, w := log, Now();
        QuietNow();
        Step(ops[i]);
        QuietNow();
        LaterStill(log0, log1, log);
        NamedMore(w0.mem, w, log1, Now(), log, ops, i);
        hist := hist + [Now()];
      }
      NowIs();
      NamedMeans(w0.mem, mem[..], calls, ops);
    }

    lemma NowIs()
      ensures Now().mem == mem[..] && Now().calls == calls
    {
    }

    lemma QuietNow()
      requires Valid()
      ensures Quiet(Now().s, Now().mem, log, Now().calls, Now().results)
    {
    }

    /** What holds between any two steps of any run. */
    lemma AtRest()
      requires Valid()
      ensures forall p :: 0 <= p < waiting.Length ==>
        (waiting[p] <==> exists i :: 0 <= i < |nodes| && Snap()[i].Owner() == p && (!Snap()[i].done || Snap()[i].born))
      ensures forall i, j :: 0 <= i < j < |nodes| ==> Snap()[i].Owner() != Snap()[j].Owner()
      ensures NoMeet(Snap())
      ensures forall id :: id in results ==> id < |calls| && results[id] == Moved(log, id, calls[id].reader)
      ensures forall id :: id in results && !calls[id].reader ==> results[id] <= calls[id].data
      ensures forall i :: 0 <= i < |nodes| && !Snap()[i].reader ==>
        Snap()[i].id < |calls| && Moved(log, Snap()[i].id, false) <= calls[Snap()[i].id].data
      ensures SumMoved(log, |calls|, true) == SumMoved(log, |calls|, false) == Total(log)
    {
      hide Moved, Chained;
      Conserved(log, calls);
      forall i | 0 <= i < |nodes| && !Snap()[i].reader
        ensures Snap()[i].id < |calls| && Moved(log, Snap()[i].id, false) <= calls[Snap()[i].id].data
      {
        assert EntOk(Snap()[i], mem[..], log, calls);
      }
    }

    /** A call starts to walk the list. */
    ghost method Begin(c: Call, block: bool) returns (s: seq<Ent>)
      requires Valid() && 1 <= c.pid < mem.Length && !waiting[c.pid] && tmp[c.pid] == null && c.buff + c.len <= |mem[c.pid]|
      requires c.data == if c.reader then [] else mem[c.pid][c.buff..c.buff + c.len]
      modifies this`calls
      ensures Walking(s, StartOf(c, |old(calls)|, block), c.pid) && calls == old(calls) + [c]
      ensures SettledTo(s, StartOf(c, |old(calls)|, block), 0) && s == old(Snap())
    {
      hide Owners, Sound, Quiet, Linked;
      s := Snap();
      NoOwnEntry(s, nodes, tmp[..], waiting[..], lens[..], calls, c.pid);
      Start(s, mem[..], log, calls, results, c, block);
      OwnersMoreCalls(s, nodes, tmp[..], waiting[..], lens[..], calls, c);
      calls := calls + [c];
    }

    lemma HeadFacts(s: seq<Ent>, act: Ent, cur: nat)
      requires Walking(s, act, cur)
      ensures |s| == |nodes| && SettledTo(s, act, 0) && Cursor(nodes, wmhead, 0, wmhead, wmhead.next)
    {
    }

    lemma CallerExists(s: seq<Ent>, act: Ent, cur: nat)
      requires Walking(s, act, cur)
      ensures cur < mem.Length && |s| == |nodes|
    {
    }

    lemma WalkFacts(s: seq<Ent>, act: Ent, cur: nat, k: nat)
      requires Walking(s, act, cur) && k < |nodes|
      ensures k < |s| && s[k] == nodes[k].Val() && s[k].Owner() != cur && s[k].Owner() != 0
      ensures Cursor(nodes, wmhead, k + 1, nodes[k], nodes[k].next)
    {
      hide Owners, Sound;
      NoOwnEntry(s, nodes, tmp[..], waiting[..], lens[..], calls, cur);
    }

    /** The call is over: what it moved is recorded, and its entry was never in the list. */
    ghost method End(s: seq<Ent>, act: Ent, cur: nat, c: Call)
      requires Walking(s, act, cur) && act.id < |calls| && calls[act.id] == c && c.pid == cur
      modifies this`results
      ensures Valid() && results == old(results)[act.id := Moved(log, act.id, act.reader)] && Snap() == s
      ensures cur < mem.Length && act.left <= c.len
      ensures Carried(mem[cur], c.buff, c.len - act.left, c.len, Moved(log, act.id, act.reader))
    {
      hide Owners, Sound, Quiet, Moved, Linked;
      Finish(s, act, mem[..], log, calls, results);
      results := results[act.id := Moved(log, act.id, act.reader)];
    }
  }

  /** Memories, who is blocked, who has an entry, the entries, the calls and their results. */
  datatype World = World(mem: seq<seq<byte>>, waiting: seq<bool>, busy: seq<bool>, s: seq<Ent>, calls: seq<Call>,
                         results: map<nat, seq<byte>>)

  /** The process is there, not blocked, and in the right place for the step. */
  ghost predicate CanStep(w: World, op: Op) {
    && 1 <= op.pid < |w.mem| == |w.waiting| == |w.busy| && !w.waiting[op.pid]
    && if op.Resumption? then w.busy[op.pid] else !w.busy[op.pid] && op.buff + op.Len() <= |w.mem[op.pid]|
  }

  /** What a step does: nothing if it is not possible; a call is recorded and does what its walk
      says, and it has an entry afterwards exactly if it blocked; a resumption takes its entry
      away and has a result; a store stores. */
  ghost predicate Stepped(w: World, op: Op, w': World) {
    if !CanStep(w, op) then w' == w
    else
      && |w'.mem| == |w.mem| == |w'.busy|
      && match op
         case Reading(p, peer, buff, len, flags) =>
           && w'.calls == w.calls + [Call(true, p, peer, buff, len, [])] && OnlyAt(w.mem, w'.mem, p, buff, buff + len)
           && Answered(w, w', Ent(peer, p, buff, len, flags % 2 == 1, false, true, |w.calls|, false), p, flags)
         case Writing(p, peer, buff, len, flags) =>
           && w'.calls == w.calls + [Call(false, p, peer, buff, len, w.mem[p][buff..buff + len])] && OnlyReceived(w.mem, w'.mem, w.s, w'.s)
           && Answered(w, w', Ent(p, peer, buff, len, flags % 2 == 1, false, false, |w.calls|, false), p, flags)
         case Resumption(p) =>
           && w'.calls == w.calls && w'.mem == w.mem && w'.busy == w.busy[p := false] && w'.waiting == w.waiting
           && (exists i :: 0 <= i < |w.s| && w.s[i].Owner() == p && w'.s == RemoveAt(w.s, i)
                     && w'.results.Keys == w.results.Keys + {w.s[i].id} && w.s[i].id !in w.results)
         case Storing(p, buff, bytes) =>
           && w' == w.(mem := w'.mem) && OnlyAt(w.mem, w'.mem, p, buff, buff + |bytes|)
           && w'.mem[p][buff..buff + |bytes|] == bytes
  }

  ghost predicate Answered(w: World, w': World, act: Ent, p: nat, flags: nat)
    requires p < |w'.busy|
  {
    exists r: Option<nat> ::
      && Outcome(Walk(w.s, act, 0), w'.s, r, act.left, flags / 2 % 2 == 1) && w'.busy[p] == r.None?
      && w'.results.Keys == w.results.Keys + (if r.Some? then {act.id} else {})
      && (r.Some? ==> |w'.results[act.id]| == r.value)
  }

  lemma NoStep(w: World, op: Op)
    requires !CanStep(w, op)
    ensures Stepped(w, op, w)
  {
  }

  lemma StoreStep(w: World, op: Op, w': World)
    requires CanStep(w, op) && op.Storing? && w' == w.(mem := w'.mem) && |w'.mem| == |w.mem| && |w'.mem[op.pid]| == |w.mem[op.pid]|
    requires forall p :: 0 <= p < |w.mem| && p != op.pid ==> w'.mem[p] == w.mem[p]
    requires forall x :: 0 <= x < |w.mem[op.pid]| ==>
      w'.mem[op.pid][x] == if op.buff <= x < op.buff + |op.bytes| then op.bytes[x - op.buff] else w.mem[op.pid][x]
    ensures Stepped(w, op, w')
  {
  }

  lemma ResumeStep(w: World, op: Op, w': World, id: nat)
    requires CanStep(w, op) && op.Resumption? && w'.calls == w.calls && w'.mem == w.mem && w'.busy == w.busy[op.pid := false]
    requires w'.waiting == w.waiting && w'.results.Keys == w.results.Keys + {id} && id !in w.results
    requires exists i :: 0 <= i < |w.s| && w.s[i].Owner() == op.pid && w.s[i].id == id && w'.s == RemoveAt(w.s, i)
    ensures Stepped(w, op, w')
  {
  }

  lemma CallStep(w: World, op: Op, w': World, r: Option<nat>, got: seq<byte>)
    requires CanStep(w, op) && (op.Reading? || op.Writing?) && |w'.mem| == |w.mem| == |w'.busy|
    requires var p, peer, buff, len := op.pid, op.peer, op.buff, op.len;
      && (if op.Reading? then
            && w'.calls == w.calls + [Call(true, p, peer, buff, len, [])] && OnlyAt(w.mem, w'.mem, p, buff, buff + len)
            && Outcome(Walk(w.s, Ent(peer, p, buff, len, IsBlock(op.flags), false, true, |w.calls|, false), 0), w'.s, r, len,
                       IsComplete(op.flags))
          else
            && w'.calls == w.calls + [Call(false, p, peer, buff, len, w.mem[p][buff..buff + len])] && OnlyReceived(w.mem, w'.mem, w.s, w'.s)
            && Outcome(Walk(w.s, Ent(p, peer, buff, len, IsBlock(op.flags), false, false, |w.calls|, false), 0), w'.s, r, len,
                       IsComplete(op.flags)))
      && w'.busy[p] == r.None?
    requires if r.Some? then w'.results == w.results[|w.calls| := got] && |got| == r.value else w'.results == w.results
    ensures Stepped(w, op, w')
  {
    hide Walk, Outcome, OnlyAt, OnlyReceived;
  }

  /** A byte differs only if an operation stored to it, or a call that reads names it. */
  ghost predicate OnlyNamed(m: seq<seq<byte>>, m': seq<seq<byte>>, calls: seq<Call>, ops: seq<Op>, n: nat) {
    && |m'| == |m| && n <= |ops| && (forall p :: 0 <= p < |m| ==> |m'[p]| == |m[p]|)
    && forall p, x :: 0 <= p < |m| && 0 <= x < |m[p]| && m'[p][x] != m[p][x] ==> StoredTo(ops, n, p, x) || ReadInto(calls, p, x)
  }

  ghost predicate StoredTo(ops: seq<Op>, n: nat, p: nat, x: nat)
    requires n <= |ops|
  {
    exists k :: 0 <= k < n && ops[k].Storing? && ops[k].pid == p && ops[k].buff <= x < ops[k].buff + |ops[k].bytes|
  }

  ghost predicate ReadInto(calls: seq<Call>, p: nat, x: nat) {
    exists id :: 0 <= id < |calls| && calls[id].reader && calls[id].pid == p && calls[id].buff <= x < calls[id].buff + calls[id].len
  }

  lemma NamedNone(m: seq<seq<byte>>, calls: seq<Call>, ops: seq<Op>)
    ensures OnlyNamed(m, m, calls, ops, 0)
  {
  }

  lemma NamedMeans(m: seq<seq<byte>>, m': seq<seq<byte>>, calls: seq<Call>, ops: seq<Op>)
    requires OnlyNamed(m, m', calls, ops, |ops|)
    ensures |m'| == |m| && forall p :: 0 <= p < |m| ==> |m'[p]| == |m[p]|
    ensures forall p, x :: 0 <= p < |m| && 0 <= x < |m[p]| && m'[p][x] != m[p][x] ==>
      || (exists k :: 0 <= k < |ops| && ops[k].Storing? && ops[k].pid == p && ops[k].buff <= x < ops[k].buff + |ops[k].bytes|)
      || (exists id :: 0 <= id < |calls| && calls[id].reader && calls[id].pid == p && calls[id].buff <= x < calls[id].buff + calls[id].len)
  {
  }

  lemma NamedMore(m: seq<seq<byte>>, w: World, log: seq<Transfer>, w': World, log': seq<Transfer>, ops: seq<Op>, n: nat)
    requires n < |ops| && OnlyNamed(m, w.mem, w.calls, ops, n) && Stepped(w, ops[n], w')
    requires Quiet(w.s, w.mem, log, w.calls, w.results) && Quiet(w'.s, w'.mem, log', w'.calls, w'.results)
    ensures OnlyNamed(m, w'.mem, w'.calls, ops, n + 1)
  {
    hide Walk, Outcome, Moved;
    StepNames(w, log, w', log', ops[n]);
    forall p, x | 0 <= p < |m| && 0 <= x < |m[p]| && w'.mem[p][x] != m[p][x]
      ensures StoredTo(ops, n + 1, p, x) || ReadInto(w'.calls, p, x)
    {
      if w.mem[p][x] != m[p][x] {
        if ReadInto(w.calls, p, x) { MoreRead(w.calls, w'.calls, p, x); }
      } else if !ReadInto(w'.calls, p, x) {
        assert ops[n].Storing?;
      }
    }
  }

  lemma MoreRead(calls: seq<Call>, calls': seq<Call>, p: nat, x: nat)
    requires calls <= calls' && ReadInto(calls, p, x)
    ensures ReadInto(calls', p, x)
  {
    var id :| 0 <= id < |calls| && calls[id].reader && calls[id].pid == p && calls[id].buff <= x < calls[id].buff + calls[id].len;
    assert calls'[id] == calls[id];
  }

  /** What one step changes, in terms of stores and calls. */
  lemma StepNames(w: World, log: seq<Transfer>, w': World, log': seq<Transfer>, op: Op)
    requires Stepped(w, op, w')
    requires Quiet(w.s, w.mem, log, w.calls, w.results) && Quiet(w'.s, w'.mem, log', w'.calls, w'.results)
    ensures w.calls <= w'.calls && |w'.mem| == |w.mem| && forall p :: 0 <= p < |w.mem| ==> |w'.mem[p]| == |w.mem[p]|
    ensures forall p, x :: 0 <= p < |w.mem| && 0 <= x < |w.mem[p]| && w'.mem[p][x] != w.mem[p][x] ==>
      (op.Storing? && op.pid == p && op.buff <= x < op.buff + |op.bytes|) || ReadInto(w'.calls, p, x)
  {
    hide Walk, Outcome, Moved, NoMeet, LogOk, ResultsOk, Unfinished;
    if CanStep(w, op) {
      forall p, x | 0 <= p < |w.mem| && 0 <= x < |w.mem[p]| && w'.mem[p][x] != w.mem[p][x] && !op.Storing?
        ensures ReadInto(w'.calls, p, x)
      {
        if op.Reading? {
          assert w'.calls[|w.calls|].buff <= x < w'.calls[|w.calls|].buff + w'.calls[|w.calls|].len;
        } else {
          ReceivedNames(w, log, w', log', p, x);
        }
      }
    }
  }

  lemma ReceivedNames(w: World, log: seq<Transfer>, w': World, log': seq<Transfer>, p: nat, x: nat)
    requires OnlyReceived(w.mem, w'.mem, w.s, w'.s) && Received(w.s, w'.s, p, x) && w.calls <= w'.calls
    requires AllOk(w.s, w.mem, log, w.calls) && AllOk(w'.s, w'.mem, log', w'.calls)
    ensures ReadInto(w'.calls, p, x)
  {
    hide Moved;
    var i :| 0 <= i < |w.s| && i < |w'.s| && w.s[i].reader && w.s[i].to == p && w.s[i].buff <= x < w'.s[i].buff;
    assert EntOk(w.s[i], w.mem, log, w.calls) && EntOk(w'.s[i], w'.mem, log', w'.calls);
    assert w'.calls[w.s[i].id] == w.calls[w.s[i].id];
  }

  lemma CarriedAtMost(m: seq<byte>, buff: nat, r: Option<nat>, len: nat, got: seq<byte>)
    ensures r.Some? && Carried(m, buff, r.value, len, got) ==> r.value <= len && |got| == r.value
  {
  }

  /** A finished call moved `n` bytes, at most `len`, to or from the start of its buffer. */
  ghost predicate Carried(m: seq<byte>, buff: nat, n: nat, len: nat, got: seq<byte>) {
    |got| == n <= len && buff + n <= |m| && m[buff..buff + n] == got
  }

  /** Transfers are only ever added to the log. */
  ghost predicate Later(log: seq<Transfer>, log': seq<Transfer>) {
    log <= log'
  }

  lemma LaterOne(log: seq<Transfer>, t: Transfer)
    ensures Later(log, log) && Later(log, log + [t])
  {
  }

  lemma LaterStill(a: seq<Transfer>, b: seq<Transfer>, c: seq<Transfer>)
    ensures Later(a, a) && (Later(a, b) && Later(b, c) ==> Later(a, c))
  {
  }

  lemma CarriedIs(m: seq<byte>, buff: nat, n: nat, len: nat, got: seq<byte>)
    requires |got| == n <= len && buff + n <= |m| && m[buff..buff + n] == got
    ensures Carried(m, buff, n, len, got)
  {
  }

  /** The first `k` entries have nothing for the call any more. */
  ghost predicate SettledTo(s: seq<Ent>, act: Ent, k: nat) {
    k <= |s| && forall i :: 0 <= i < k ==> Settled(s[i], act)
  }

  lemma FitsRead(s: seq<Ent>, k: nat, act: Ent)
    requires k < |s| && act.reader && s[k].to == act.to && (s[k].from == act.from || act.from == 0) && s[k].Owner() != act.to
    ensures Fits(s[k], act) && !s[k].reader
  {
  }

  /** The list and the answer once the walk `w` is over: the call returns what it moved,
      or its rest joins the list. */
  ghost predicate Outcome(w: (seq<Ent>, Ent, bool), s: seq<Ent>, r: Option<nat>, len: nat, done: bool) {
    && w.1.left <= len && r == (if w.2 then Some(len - w.1.left) else None)
    && s == if w.2 then w.0 else w.0 + [w.1.(done := done, born := done)]
  }

  lemma Outcomes(s: seq<Ent>, act: Ent, len: nat, done: bool)
    requires act.left <= len
    ensures Outcome((s, act, true), s, Some(len - act.left), len, done)
    ensures Outcome((s, act, false), s + [act.(done := done, born := done)], None, len, done)
  {
  }

  /** From entry `k` on, no reader belongs to process `to`. */
  ghost predicate OneReader(s: seq<Ent>, k: nat, to: nat) {
    forall i :: k <= i < |s| && s[i].reader ==> s[i].to != to
  }

  lemma FitsWrite(s: seq<Ent>, k: nat, act: Ent)
    requires k < |s| && !act.reader && s[k].to == act.to && (s[k].from == act.from || s[k].from == 0)
    requires s[k].Owner() != act.from && s[k].Owner() != 0
    ensures Fits(s[k], act) && s[k].reader && !OneReader(s, k, act.to)
  {
  }

  lemma NoFitWrite(s: seq<Ent>, k: nat, act: Ent)
    requires k < |s| && !act.reader && !((s[k].from == act.from || s[k].from == 0) && s[k].to == act.to && !s[k].done)
    requires SettledTo(s, act, k)
    ensures SettledTo(s, act, k + 1) && Walk(s, act, k) == Walk(s, act, k + 1)
    ensures OneReader(s, k, act.to) ==> OneReader(s, k + 1, act.to)
  {
  }

  lemma NoFitRead(s: seq<Ent>, k: nat, act: Ent)
    requires k < |s| && act.reader && !(s[k].to == act.to && (s[k].from == act.from || act.from == 0) && !s[k].done)
    requires SettledTo(s, act, k)
    ensures SettledTo(s, act, k + 1) && Walk(s, act, k) == Walk(s, act, k + 1)
  {
  }

  lemma RoomMeans(e: Ent, act: Ent, n: nat, mem: seq<seq<byte>>)
    requires Fits(e, act) && Room(e, act, n, mem)
    ensures e.Owner() < |mem| && act.Owner() < |mem|
    ensures e.buff + n <= |mem[e.Owner()]| && act.buff + n <= |mem[act.Owner()]|
    ensures MemAfter(e, act, n, mem) ==
      if act.reader then mem[act.to := Splice(mem[act.to], act.buff, mem[e.from][e.buff..e.buff + n])]
      else mem[e.to := Splice(mem[e.to], e.buff, mem[act.from][act.buff..act.buff + n])]
  {
  }

  lemma SettledAfter(s: seq<Ent>, k: nat, act: Ent, n: nat)
    requires k < |s| && n <= s[k].left && n <= act.left && SettledTo(s, act, k)
    ensures n == (if act.left < s[k].left then act.left else s[k].left) && n < act.left ==>
      SettledTo(s[k := Served(s[k], n)], Advance(act, n), k + 1)
  {
  }

  lemma WalkServe(s: seq<Ent>, act: Ent, k: nat)
    requires k < |s| && Fits(s[k], act) && !s[k].done
    ensures var n := if act.left < s[k].left then act.left else s[k].left;
      var s', act' := s[k := Served(s[k], n)], Advance(act, n);
      Walk(s, act, k) == if !act.block || act'.left == 0 then (s', act', true) else Walk(s', act', k + 1)
  {
  }

  lemma WalkEnd(s: seq<Ent>, act: Ent, k: nat)
    requires k >= |s|
    ensures Walk(s, act, k) == (s, act, false)
  {
  }

  lemma ServedFacts(e: Ent, n: nat)
    requires n <= e.left
    ensures var r := Served(e, n);
      && r.from == e.from && r.to == e.to && r.reader == e.reader && r.block == e.block && r.id == e.id && r.left == e.left - n
      && r.born == e.born && r.done == (e.done || !r.block || r.left == 0) && r.buff == e.buff + n
  {
  }
}
