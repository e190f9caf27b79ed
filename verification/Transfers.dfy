/** Calls to read and write messages, the bytes they move, and what an entry of the
    pending list stands for. */
module Transfers {
  import opened Paging

  /** One call: who made it, on which buffer, and for a writer the bytes to send. */
  datatype Call = Call(reader: bool, pid: nat, peer: nat, buff: nat, len: nat, data: seq<byte>)

  /** Bytes that went from writer call `w` to reader call `r`. */
  datatype Transfer = Transfer(w: nat, r: nat, bytes: seq<byte>)

  /** A list entry as a value, with the number and the kind of the call it belongs to.
      One that joined the list as complete was `born` so, by the flags of its call. */
  datatype Ent = Ent(from: nat, to: nat, buff: nat, left: nat, block: bool, done: bool, reader: bool, id: nat, born: bool) {
    function Owner(): nat {
      if reader then to else from
    }
  }

  /** Reader entry `r` takes from writer entry `w`; 0 stands for any sender. */
  predicate Match(r: Ent, w: Ent) {
    w.to == r.to && (r.from == w.from || r.from == 0)
  }

  /** The bytes call `id` received, or sent, in order. */
  ghost function Moved(log: seq<Transfer>, id: nat, reader: bool): seq<byte> {
    if log == [] then []
    else
      var t := log[|log| - 1];
      Moved(log[..|log| - 1], id, reader) + (if (if reader then t.r else t.w) == id then t.bytes else [])
  }

  lemma MovedOne(log: seq<Transfer>, t: Transfer, id: nat, reader: bool)
    ensures Moved(log + [t], id, reader) ==
      Moved(log, id, reader) + (if (if reader then t.r else t.w) == id then t.bytes else [])
  {
    assert (log + [t])[..|log|] == log;
  }

  /** Entry `e` is the unfinished rest of its call: what it moved is what the log says,
      and lies in its buffer. */
  ghost predicate EntOk(e: Ent, mem: seq<seq<byte>>, log: seq<Transfer>, calls: seq<Call>) {
    && e.id < |calls| && e.Owner() < |mem|
    && var c := calls[e.id];
      && c.reader == e.reader && c.pid == e.Owner() && c.peer == (if e.reader then e.from else e.to)
      && e.left <= c.len && e.buff == c.buff + (c.len - e.left) && c.buff + c.len <= |mem[c.pid]|
      && Moved(log, e.id, e.reader) == mem[c.pid][c.buff..e.buff]
      && (!e.reader ==> mem[c.pid][c.buff..c.buff + c.len] == c.data)
  }

  ghost predicate AllOk(s: seq<Ent>, mem: seq<seq<byte>>, log: seq<Transfer>, calls: seq<Call>) {
    && (forall i :: 0 <= i < |s| ==> EntOk(s[i], mem, log, calls))
    && Distinct(s)
  }

  /** Every transfer joins a writer call and a reader call that name each other. */
  ghost predicate LogOk(log: seq<Transfer>, calls: seq<Call>) {
    forall t :: t in log ==>
      && t.w < |calls| && t.r < |calls| && !calls[t.w].reader && calls[t.r].reader
      && calls[t.w].peer == calls[t.r].pid && (calls[t.r].peer == calls[t.w].pid || calls[t.r].peer == 0)
  }

  function Splice(s: seq<byte>, at: nat, b: seq<byte>): (r: seq<byte>)
    requires at + |b| <= |s|
    ensures |r| == |s| && r[at..at + |b|] == b
  {
    s[..at] + b + s[at + |b|..]
  }

  /** `umemcpy` of `n` bytes from the writer's buffer to the reader's. */
  function Copied(mem: seq<seq<byte>>, w: Ent, r: Ent, n: nat): seq<seq<byte>>
    requires w.from < |mem| && r.to < |mem| && w.buff + n <= |mem[w.from]| && r.buff + n <= |mem[r.to]|
  {
    mem[r.to := Splice(mem[r.to], r.buff, mem[w.from][w.buff..w.buff + n])]
  }

  function Outgoing(mem: seq<seq<byte>>, w: Ent, n: nat): seq<byte>
    requires w.from < |mem| && w.buff + n <= |mem[w.from]|
  {
    mem[w.from][w.buff..w.buff + n]
  }

  function Advance(e: Ent, n: nat): Ent
    requires n <= e.left
  {
    e.(left := e.left - n, buff := e.buff + n)
  }

  lemma WriterMoves(w: Ent, r: Ent, n: nat, mem: seq<seq<byte>>, log: seq<Transfer>, calls: seq<Call>)
    requires EntOk(w, mem, log, calls) && EntOk(r, mem, log, calls) && !w.reader && r.reader
    requires w.from != r.to && w.id != r.id && n <= w.left && n <= r.left
    ensures EntOk(Advance(w, n), Copied(mem, w, r, n), log + [Transfer(w.id, r.id, Outgoing(mem, w, n))], calls)
  {
    hide Splice;
    MovedOne(log, Transfer(w.id, r.id, Outgoing(mem, w, n)), w.id, false);
    SliceMore(mem[w.from], calls[w.id].buff, w.buff, n);
  }

  lemma ReaderMoves(w: Ent, r: Ent, n: nat, mem: seq<seq<byte>>, log: seq<Transfer>, calls: seq<Call>)
    requires EntOk(w, mem, log, calls) && EntOk(r, mem, log, calls) && !w.reader && r.reader
    requires w.from != r.to && w.id != r.id && n <= w.left && n <= r.left
    ensures EntOk(Advance(r, n), Copied(mem, w, r, n), log + [Transfer(w.id, r.id, Outgoing(mem, w, n))], calls)
  {
    hide Splice;
    MovedOne(log, Transfer(w.id, r.id, Outgoing(mem, w, n)), r.id, true);
    SpliceMore(mem[r.to], calls[r.id].buff, r.buff, Outgoing(mem, w, n));
  }

  lemma OtherStays(e: Ent, w: Ent, r: Ent, n: nat, mem: seq<seq<byte>>, log: seq<Transfer>, calls: seq<Call>)
    requires EntOk(e, mem, log, calls) && EntOk(w, mem, log, calls) && EntOk(r, mem, log, calls) && !w.reader && r.reader
    requires n <= w.left && n <= r.left && e.Owner() != r.to && e.id != w.id && e.id != r.id
    ensures EntOk(e, Copied(mem, w, r, n), log + [Transfer(w.id, r.id, Outgoing(mem, w, n))], calls)
  {
    hide Splice;
    MovedOne(log, Transfer(w.id, r.id, Outgoing(mem, w, n)), e.id, e.reader);
  }

  ghost predicate Distinct(s: seq<Ent>) {
    forall i, j :: 0 <= i < |s| && 0 <= j < |s| && i != j ==> s[i].Owner() != s[j].Owner() && s[i].id != s[j].id
  }

  /** Moving `n` bytes between two entries keeps every entry right. */
  lemma TransferKeeps(s: seq<Ent>, i: nat, j: nat, n: nat, mem: seq<seq<byte>>, log: seq<Transfer>, calls: seq<Call>)
    requires AllOk(s, mem, log, calls) && LogOk(log, calls) && i < |s| && j < |s| && i != j
    requires !s[i].reader && s[j].reader && Match(s[j], s[i]) && n <= s[i].left && n <= s[j].left
    ensures s[i].from < |mem| && s[j].to < |mem| && s[i].buff + n <= |mem[s[i].from]| && s[j].buff + n <= |mem[s[j].to]|
    ensures var log' := log + [Transfer(s[i].id, s[j].id, Outgoing(mem, s[i], n))];
      && AllOk(s[i := Advance(s[i], n)][j := Advance(s[j], n)], Copied(mem, s[i], s[j], n), log', calls)
      && LogOk(log', calls)
  {
    hide EntOk, Splice, Copied, Outgoing, Advance, LogOk;
    var w, r := s[i], s[j];
    EntFacts(w, mem, log, calls);
    EntFacts(r, mem, log, calls);
    LogMore(log, w, r, calls, Outgoing(mem, w, n));
    AdvanceKeeps(w, n);
    AdvanceKeeps(r, n);
    var log' := log + [Transfer(w.id, r.id, Outgoing(mem, w, n))];
    var s', mem' := s[i := Advance(w, n)][j := Advance(r, n)], Copied(mem, w, r, n);
    forall k | 0 <= k < |s'|
      ensures EntOk(s'[k], mem', log', calls)
    {
      assert EntOk(s[k], mem, log, calls);
      if k == i {
        WriterMoves(w, r, n, mem, log, calls);
      } else if k == j {
        ReaderMoves(w, r, n, mem, log, calls);
      } else {
        OtherStays(s[k], w, r, n, mem, log, calls);
      }
    }
  }

  lemma AdvanceKeeps(e: Ent, n: nat)
    requires n <= e.left
    ensures Advance(e, n).Owner() == e.Owner() && Advance(e, n).id == e.id
  {
  }

  lemma LogMore(log: seq<Transfer>, w: Ent, r: Ent, calls: seq<Call>, bytes: seq<byte>)
    requires LogOk(log, calls) && w.id < |calls| && r.id < |calls| && !w.reader && r.reader && Match(r, w)
    requires !calls[w.id].reader && calls[w.id].pid == w.from && calls[w.id].peer == w.to
    requires calls[r.id].reader && calls[r.id].pid == r.to && calls[r.id].peer == r.from
    ensures LogOk(log + [Transfer(w.id, r.id, bytes)], calls)
  {
  }

  lemma EntFacts(e: Ent, mem: seq<seq<byte>>, log: seq<Transfer>, calls: seq<Call>)
    requires EntOk(e, mem, log, calls)
    ensures e.Owner() < |mem| && e.buff + e.left <= |mem[e.Owner()]|
    ensures e.id < |calls| && calls[e.id].reader == e.reader && calls[e.id].pid == e.Owner()
    ensures calls[e.id].peer == if e.reader then e.from else e.to
  {
  }

  lemma SliceMore(m: seq<byte>, a: nat, b: nat, n: nat)
    requires a <= b && b + n <= |m|
    ensures m[a..b + n] == m[a..b] + m[b..b + n]
  {
  }

  lemma SpliceMore(m: seq<byte>, a: nat, b: nat, bytes: seq<byte>)
    requires a <= b && b + |bytes| <= |m|
    ensures Splice(m, b, bytes)[a..b + |bytes|] == m[a..b] + bytes
  {
  }

  // ---- what stays

  /** From `m` to `m'` the `n` bytes from `src` on in memory `q` were copied to `at` in memory
      `p`, and no other byte changed. */
  ghost predicate Moves(m: seq<seq<byte>>, m': seq<seq<byte>>, p: nat, at: nat, q: nat, src: nat, n: nat) {
    && |m'| == |m| && p < |m| && q < |m| && at + n <= |m[p]| == |m'[p]| && src + n <= |m[q]|
    && (forall r :: 0 <= r < |m| && r != p ==> m'[r] == m[r])
    && (forall x :: 0 <= x < |m[p]| ==> m'[p][x] == if at <= x < at + n then m[q][src + x - at] else m[p][x])
  }

  /** Only bytes `a` up to `b` of memory `p` changed. */
  ghost predicate OnlyAt(m: seq<seq<byte>>, m': seq<seq<byte>>, p: nat, a: nat, b: nat) {
    && |m'| == |m| && p < |m| && |m'[p]| == |m[p]|
    && (forall r :: 0 <= r < |m| && r != p ==> m'[r] == m[r])
    && (forall x :: 0 <= x < |m[p]| && !(a <= x < b) ==> m'[p][x] == m[p][x])
  }

  /** Byte `x` of memory `p` is one that a reader entry of `s` received on its way to `s'`. */
  ghost predicate Received(s: seq<Ent>, s': seq<Ent>, p: nat, x: nat) {
    exists i :: 0 <= i < |s| && i < |s'| && s[i].reader && s[i].to == p && s[i].buff <= x < s'[i].buff
  }

  /** Only such bytes changed. */
  ghost predicate OnlyReceived(m: seq<seq<byte>>, m': seq<seq<byte>>, s: seq<Ent>, s': seq<Ent>) {
    && |m'| == |m| && |s| <= |s'|
    && (forall i :: 0 <= i < |s| ==>
          s'[i].to == s[i].to && s'[i].reader == s[i].reader && s'[i].id == s[i].id && s[i].buff <= s'[i].buff)
    && (forall p :: 0 <= p < |m| ==> |m'[p]| == |m[p]|)
    && (forall p, x :: 0 <= p < |m| && 0 <= x < |m[p]| && m'[p][x] != m[p][x] ==> Received(s, s', p, x))
  }

  lemma OnlyMore(m: seq<seq<byte>>, m1: seq<seq<byte>>, m2: seq<seq<byte>>, p: nat, a: nat, b: nat, q: nat, src: nat, n: nat)
    requires OnlyAt(m, m1, p, a, b) && Moves(m1, m2, p, b, q, src, n) && a <= b
    ensures OnlyAt(m, m2, p, a, b + n)
  {
  }

  lemma ReceivedMore(m: seq<seq<byte>>, m1: seq<seq<byte>>, m2: seq<seq<byte>>, s: seq<Ent>, s1: seq<Ent>, k: nat, e: Ent, q: nat,
                     src: nat, n: nat)
    requires OnlyReceived(m, m1, s, s1) && k < |s| == |s1|
    requires e.reader && e.to == s1[k].to && e.reader == s1[k].reader && e.id == s1[k].id && e.buff == s1[k].buff + n
    requires Moves(m1, m2, e.to, s1[k].buff, q, src, n)
    ensures OnlyReceived(m, m2, s, s1[k := e])
  {
    var s2 := s1[k := e];
    forall p, x | 0 <= p < |m| && 0 <= x < |m[p]| && m2[p][x] != m[p][x]
      ensures Received(s, s2, p, x)
    {
      if m1[p][x] != m[p][x] {
        var i :| 0 <= i < |s| && i < |s1| && s[i].reader && s[i].to == p && s[i].buff <= x < s1[i].buff;
        assert s[i].buff <= x < s2[i].buff;
      } else {
        assert s[k].buff <= x < s2[k].buff;
      }
    }
  }

  lemma ReceivedLonger(m: seq<seq<byte>>, m': seq<seq<byte>>, s: seq<Ent>, s1: seq<Ent>, s2: seq<Ent>)
    requires OnlyReceived(m, m', s, s1) && s1 <= s2 && |s1| == |s|
    ensures OnlyReceived(m, m', s, s2)
  {
    forall p, x | 0 <= p < |m| && 0 <= x < |m[p]| && m'[p][x] != m[p][x]
      ensures Received(s, s2, p, x)
    {
      var i :| 0 <= i < |s| && i < |s1| && s[i].reader && s[i].to == p && s[i].buff <= x < s1[i].buff;
      assert s2[i] == s1[i];
    }
  }

  lemma ReceivedMeans(m: seq<seq<byte>>, m': seq<seq<byte>>, s: seq<Ent>, s': seq<Ent>)
    requires OnlyReceived(m, m', s, s')
    ensures |m'| == |m| && |s| <= |s'| && forall p :: 0 <= p < |m| ==> |m'[p]| == |m[p]|
    ensures forall p, x :: 0 <= p < |m| && 0 <= x < |m[p]| && m'[p][x] != m[p][x] ==>
      exists i :: 0 <= i < |s| && s[i].reader && s[i].to == p && s[i].buff <= x < s'[i].buff
  {
    forall p, x | 0 <= p < |m| && 0 <= x < |m[p]| && m'[p][x] != m[p][x]
      ensures exists i :: 0 <= i < |s| && s[i].reader && s[i].to == p && s[i].buff <= x < s'[i].buff
    {
      assert Received(s, s', p, x);
    }
  }

  lemma SplicedMoves(m: seq<seq<byte>>, p: nat, at: nat, q: nat, src: nat, n: nat)
    requires p < |m| && q < |m| && at + n <= |m[p]| && src + n <= |m[q]|
    ensures Moves(m, m[p := Splice(m[p], at, m[q][src..src + n])], p, at, q, src, n)
  {
  }

  lemma NothingYet(m: seq<seq<byte>>, p: nat, a: nat, s: seq<Ent>)
    ensures p < |m| ==> OnlyAt(m, m, p, a, a)
    ensures OnlyReceived(m, m, s, s)
  {
  }

  // ---- conservation

  ghost function Total(log: seq<Transfer>): nat {
    if log == [] then 0 else Total(log[..|log| - 1]) + |log[|log| - 1].bytes|
  }

  /** Bytes moved by the calls below `n`, on one side. */
  ghost function SumMoved(log: seq<Transfer>, n: nat, reader: bool): nat {
    if n == 0 then 0 else SumMoved(log, n - 1, reader) + |Moved(log, n - 1, reader)|
  }

  lemma {:induction false} SumStep(log: seq<Transfer>, t: Transfer, n: nat, reader: bool)
    ensures SumMoved(log + [t], n, reader) ==
      SumMoved(log, n, reader) + (if (if reader then t.r else t.w) < n then |t.bytes| else 0)
  {
    if n > 0 {
      SumStep(log, t, n - 1, reader);
      MovedOne(log, t, n - 1, reader);
    }
  }

  /** All writers together sent exactly the bytes all readers together received. */
  lemma {:induction false} Conserved(log: seq<Transfer>, calls: seq<Call>)
    requires LogOk(log, calls)
    ensures SumMoved(log, |calls|, true) == SumMoved(log, |calls|, false) == Total(log)
  {
    if log == [] {
      NothingMoved(|calls|, true);
      NothingMoved(|calls|, false);
    } else {
      var t := log[|log| - 1];
      assert log == log[..|log| - 1] + [t];
      Conserved(log[..|log| - 1], calls);
      SumStep(log[..|log| - 1], t, |calls|, true);
      SumStep(log[..|log| - 1], t, |calls|, false);
      assert t in log;
    }
  }

  lemma {:induction false} NothingMoved(n: nat, reader: bool)
    ensures SumMoved([], n, reader) == 0
  {
    if n > 0 { NothingMoved(n - 1, reader); }
  }
}
