/** What one call does to the pending entries, on values: a walk over the list that
    serves matching entries, and the invariants over all interleavings of such calls. */
module Rendezvous {
  import opened Basics
  import opened Paging
  import opened Transfers

  /** No incomplete reader and incomplete writer that match are both in the list. */
  ghost predicate NoMeet(s: seq<Ent>) {
    forall i, j :: 0 <= i < |s| && 0 <= j < |s| && s[i].reader && !s[j].reader && !s[i].done && !s[j].done ==> !Match(s[i], s[j])
  }

  /** A finished call moved the bytes recorded for it; a writer's are the first ones
      of its data. */
  ghost predicate ResultsOk(results: map<nat, seq<byte>>, log: seq<Transfer>, calls: seq<Call>) {
    forall c :: c in results ==>
      && c < |calls| && results[c] == Moved(log, c, calls[c].reader)
      && (!calls[c].reader ==> results[c] <= calls[c].data)
  }

  ghost predicate Unfinished(s: seq<Ent>, results: map<nat, seq<byte>>) {
    forall i :: 0 <= i < |s| ==> s[i].id !in results
  }

  /** All of it, while a call of `act` walks the list `s`. */
  ghost predicate Sound(s: seq<Ent>, act: Ent, mem: seq<seq<byte>>, log: seq<Transfer>, calls: seq<Call>, results: map<nat, seq<byte>>) {
    && AllOk(s + [act], mem, log, calls) && LogOk(log, calls) && NoMeet(s)
    && ResultsOk(results, log, calls) && Unfinished(s + [act], results)
  }

  /** The same between calls. */
  ghost predicate Quiet(s: seq<Ent>, mem: seq<seq<byte>>, log: seq<Transfer>, calls: seq<Call>, results: map<nat, seq<byte>>) {
    && AllOk(s, mem, log, calls) && LogOk(log, calls) && NoMeet(s)
    && ResultsOk(results, log, calls) && Unfinished(s, results)
  }

  /** Entry `e` after `n` bytes, complete if nothing is left or it does not insist. */
  function Served(e: Ent, n: nat): Ent
    requires n <= e.left
  {
    var a := Advance(e, n);
    a.(done := a.done || !a.block || a.left == 0)
  }

  /** Entry `e` and the call `act` are reader and writer of one message. */
  predicate Fits(e: Ent, act: Ent) {
    e.reader != act.reader && (if act.reader then Match(act, e) else Match(e, act))
  }

  /** An entry the walk of `act` is through with does not fit it any more. */
  predicate Settled(e: Ent, act: Ent) {
    e.done || !Fits(e, act)
  }

  /** What a call does to the list from entry `k` on: every entry that fits it is served
      as far as both sides go, until the call is content with what it got. The list, the
      call, and whether it returns. */
  ghost function Walk(s: seq<Ent>, act: Ent, k: nat): (r: (seq<Ent>, Ent, bool))
    decreases |s| - k
  {
    if k >= |s| then (s, act, false)
    else if Settled(s[k], act) then Walk(s, act, k + 1)
    else
      var n := if act.left < s[k].left then act.left else s[k].left;
      var s', act' := s[k := Served(s[k], n)], Advance(act, n);
      if !act.block || act'.left == 0 then (s', act', true) else Walk(s', act', k + 1)
  }

  // ---- starting and finishing a call

  ghost function StartOf(c: Call, id: nat, block: bool): Ent {
    Ent(if c.reader then c.peer else c.pid, if c.reader then c.pid else c.peer, c.buff, c.len, block, false, c.reader, id, false)
  }

  lemma {:induction false} NewCallMovedNothing(log: seq<Transfer>, calls: seq<Call>, reader: bool)
    requires LogOk(log, calls)
    ensures Moved(log, |calls|, reader) == []
  {
    if log != [] {
      assert log[|log| - 1] in log;
      NewCallMovedNothing(log[..|log| - 1], calls, reader);
    }
  }

  lemma Start(s: seq<Ent>, mem: seq<seq<byte>>, log: seq<Transfer>, calls: seq<Call>, results: map<nat, seq<byte>>, c: Call, block: bool)
    requires Quiet(s, mem, log, calls, results) && c.pid < |mem| && c.buff + c.len <= |mem[c.pid]|
    requires c.data == if c.reader then [] else mem[c.pid][c.buff..c.buff + c.len]
    requires forall i :: 0 <= i < |s| ==> s[i].Owner() != c.pid
    ensures Sound(s, StartOf(c, |calls|, block), mem, log, calls + [c], results)
  {
    hide Moved, EntOk, LogOk;
    var act := StartOf(c, |calls|, block);
    StartEnt(mem, log, calls, c, block);
    var all := s + [act];
    forall i | 0 <= i < |all|
      ensures EntOk(all[i], mem, log, calls + [c])
    {
      if i < |s| { assert EntOk(s[i], mem, log, calls); MoreCalls(s[i], mem, log, calls, c); }
    }
    forall i, j | 0 <= i < |all| && 0 <= j < |all| && i != j
      ensures all[i].Owner() != all[j].Owner() && all[i].id != all[j].id
    {
      if i < |s| { EntFacts(s[i], mem, log, calls); }
      if j < |s| { EntFacts(s[j], mem, log, calls); }
    }
    MoreCallsLog(log, calls, c);
  }

  lemma StartEnt(mem: seq<seq<byte>>, log: seq<Transfer>, calls: seq<Call>, c: Call, block: bool)
    requires LogOk(log, calls) && c.pid < |mem| && c.buff + c.len <= |mem[c.pid]|
    requires c.data == if c.reader then [] else mem[c.pid][c.buff..c.buff + c.len]
    ensures EntOk(StartOf(c, |calls|, block), mem, log, calls + [c])
  {
    NewCallMovedNothing(log, calls, c.reader);
  }

  lemma MoreCalls(e: Ent, mem: seq<seq<byte>>, log: seq<Transfer>, calls: seq<Call>, c: Call)
    requires EntOk(e, mem, log, calls)
    ensures EntOk(e, mem, log, calls + [c])
  {
  }

  lemma MoreCallsLog(log: seq<Transfer>, calls: seq<Call>, c: Call)
    requires LogOk(log, calls)
    ensures LogOk(log, calls + [c])
  {
  }

  lemma PrefixOfSlice(m: seq<byte>, a: nat, b: nat, n: nat)
    requires a <= b <= a + n <= |m|
    ensures m[a..b] <= m[a..a + n] && |m[a..b]| == b - a
  {
  }

  lemma Finish(s: seq<Ent>, act: Ent, mem: seq<seq<byte>>, log: seq<Transfer>, calls: seq<Call>, results: map<nat, seq<byte>>)
    requires Sound(s, act, mem, log, calls, results)
    ensures act.id < |calls| && act.left <= calls[act.id].len && act.Owner() < |mem|
    ensures var got := Moved(log, act.id, act.reader);
      && Quiet(s, mem, log, calls, results[act.id := got])
      && |got| == calls[act.id].len - act.left
      && calls[act.id].buff + |got| <= |mem[act.Owner()]|
      && got == mem[act.Owner()][calls[act.id].buff..calls[act.id].buff + |got|]
  {
    hide Moved;
    var all := s + [act];
    assert all[|s|] == act && EntOk(act, mem, log, calls);
    forall i | 0 <= i < |s|
      ensures EntOk(s[i], mem, log, calls) && s[i].id != act.id
    {
      assert all[i] == s[i] && EntOk(all[i], mem, log, calls) && all[i].id != all[|s|].id;
    }
    forall i, j | 0 <= i < |s| && 0 <= j < |s| && i != j
      ensures s[i].Owner() != s[j].Owner() && s[i].id != s[j].id
    {
      assert all[i].Owner() != all[j].Owner() && all[i].id != all[j].id;
    }
    var c := calls[act.id];
    var got := Moved(log, act.id, act.reader);
    if !act.reader { PrefixOfSlice(mem[c.pid], c.buff, act.buff, c.len); }
    assert ResultsOk(results[act.id := got], log, calls);
    assert NoMeet(s) && LogOk(log, calls);
    assert Unfinished(s, results[act.id := got]) by {
      forall i | 0 <= i < |s| ensures s[i].id !in results { assert all[i].id !in results; }
    }
  }

  /** The owner of an entry takes it out of the list to finish its call. */
  lemma TakeOut(s: seq<Ent>, k: nat, mem: seq<seq<byte>>, log: seq<Transfer>, calls: seq<Call>, results: map<nat, seq<byte>>)
    requires Quiet(s, mem, log, calls, results) && k < |s|
    ensures Sound(RemoveAt(s, k), s[k], mem, log, calls, results)
  {
    hide Moved, EntOk, LogOk, ResultsOk;
    var all := RemoveAt(s, k) + [s[k]];
    forall i, j | 0 <= i < |all| && 0 <= j < |all| && i != j
      ensures all[i].Owner() != all[j].Owner() && all[i].id != all[j].id
    {
      var a := if i == |s| - 1 then k else if i < k then i else i + 1;
      var b := if j == |s| - 1 then k else if j < k then j else j + 1;
      assert all[i] == s[a] && all[j] == s[b];
    }
  }

  /** A process without an entry changes its own memory. */
  lemma StoreKeeps(s: seq<Ent>, mem: seq<seq<byte>>, log: seq<Transfer>, calls: seq<Call>, results: map<nat, seq<byte>>, p: nat,
                   m: seq<byte>)
    requires Quiet(s, mem, log, calls, results) && p < |mem| && |m| == |mem[p]|
    requires forall i :: 0 <= i < |s| ==> s[i].Owner() != p
    ensures Quiet(s, mem[p := m], log, calls, results)
  {
    hide Moved;
    forall i | 0 <= i < |s|
      ensures EntOk(s[i], mem[p := m], log, calls)
    {
      assert EntOk(s[i], mem, log, calls);
    }
  }

  /** A call whose walk found nothing more to do joins the list. */
  lemma Enqueue(s: seq<Ent>, act: Ent, mem: seq<seq<byte>>, log: seq<Transfer>, calls: seq<Call>, results: map<nat, seq<byte>>, done: bool)
    requires Sound(s, act, mem, log, calls, results)
    requires forall i :: 0 <= i < |s| ==> Settled(s[i], act)
    ensures Quiet(s + [act.(done := done, born := done)], mem, log, calls, results)
  {
    hide Moved;
    var all, e := s + [act], s + [act.(done := done, born := done)];
    forall i | 0 <= i < |e|
      ensures EntOk(e[i], mem, log, calls) && e[i].id !in results
    {
      assert EntOk(all[i], mem, log, calls) && all[i].id !in results;
    }
    forall i, j | 0 <= i < |e| && 0 <= j < |e| && i != j
      ensures e[i].Owner() != e[j].Owner() && e[i].id != e[j].id
    {
      assert all[i].Owner() != all[j].Owner() && all[i].id != all[j].id;
    }
  }

  // ---- serving one entry

  lemma {:induction false} MovedKept(log: seq<Transfer>, t: Transfer, results: map<nat, seq<byte>>, calls: seq<Call>)
    requires ResultsOk(results, log, calls) && t.w !in results && t.r !in results
    ensures ResultsOk(results, log + [t], calls)
  {
    hide Moved;
    forall c | c in results
      ensures Moved(log + [t], c, calls[c].reader) == Moved(log, c, calls[c].reader)
    {
      MovedOne(log, t, c, calls[c].reader);
    }
  }

  /** Whether an entry is complete says nothing about its bytes. */
  lemma DoneApart(s: seq<Ent>, k: nat, done: bool, mem: seq<seq<byte>>, log: seq<Transfer>, calls: seq<Call>)
    requires AllOk(s, mem, log, calls) && k < |s|
    ensures AllOk(s[k := s[k].(done := done)], mem, log, calls)
  {
    hide Moved;
    var r := s[k := s[k].(done := done)];
    forall i | 0 <= i < |r|
      ensures EntOk(r[i], mem, log, calls)
    {
      assert EntOk(s[i], mem, log, calls);
    }
    forall i, j | 0 <= i < |r| && 0 <= j < |r| && i != j
      ensures r[i].Owner() != r[j].Owner() && r[i].id != r[j].id
    {
      assert s[i].Owner() != s[j].Owner() && s[i].id != s[j].id;
    }
  }

  ghost function Give(e: Ent, act: Ent, n: nat, mem: seq<seq<byte>>): Transfer
    requires var w := if act.reader then e else act; w.from < |mem| && w.buff + n <= |mem[w.from]|
  {
    var w := if act.reader then e else act;
    Transfer(w.id, (if act.reader then act else e).id, Outgoing(mem, w, n))
  }

  /** Both sides have the buffer for `n` bytes. */
  ghost predicate Room(e: Ent, act: Ent, n: nat, mem: seq<seq<byte>>) {
    && n <= e.left && n <= act.left
    && e.Owner() < |mem| && act.Owner() < |mem|
    && e.buff + n <= |mem[e.Owner()]| && act.buff + n <= |mem[act.Owner()]|
  }

  ghost function MemAfter(e: Ent, act: Ent, n: nat, mem: seq<seq<byte>>): seq<seq<byte>>
    requires e.reader != act.reader && Room(e, act, n, mem)
  {
    if act.reader then Copied(mem, e, act, n) else Copied(mem, act, e, n)
  }

  lemma HasRoom(s: seq<Ent>, act: Ent, k: nat, n: nat, mem: seq<seq<byte>>, log: seq<Transfer>, calls: seq<Call>,
                results: map<nat, seq<byte>>)
    requires Sound(s, act, mem, log, calls, results) && k < |s| && n <= s[k].left && n <= act.left
    ensures Room(s[k], act, n, mem)
  {
    hide Moved;
    var all := s + [act];
    assert all[k] == s[k] && all[|s|] == act;
    EntFacts(all[k], mem, log, calls);
    EntFacts(all[|s|], mem, log, calls);
  }

  /** Serving a fitting entry keeps everything. */
  lemma ServeKeeps(s: seq<Ent>, act: Ent, k: nat, n: nat, mem: seq<seq<byte>>, log: seq<Transfer>, calls: seq<Call>,
                   results: map<nat, seq<byte>>)
    requires Sound(s, act, mem, log, calls, results) && k < |s| && n <= s[k].left && n <= act.left
    requires Fits(s[k], act) && Room(s[k], act, n, mem)
    ensures Sound(s[k := Served(s[k], n)], Advance(act, n), MemAfter(s[k], act, n, mem),
                  log + [Give(s[k], act, n, mem)], calls, results)
  {
    hide Moved, EntOk, LogOk, Outgoing, Copied;
    var all, t := s + [act], Give(s[k], act, n, mem);
    var mem', log' := MemAfter(s[k], act, n, mem), log + [t];
    assert all[k] == s[k] && all[|s|] == act;
    if act.reader {
      TransferKeeps(all, k, |s|, n, mem, log, calls);
    } else {
      TransferKeeps(all, |s|, k, n, mem, log, calls);
    }
    var moved := all[k := Advance(s[k], n)][|s| := Advance(act, n)];
    assert moved == all[|s| := Advance(act, n)][k := Advance(s[k], n)];
    DoneApart(moved, k, Served(s[k], n).done, mem', log', calls);
    assert moved[k := Served(s[k], n)] == s[k := Served(s[k], n)] + [Advance(act, n)];
    assert all[k].id !in results && all[|s|].id !in results;
    MovedKept(log, t, results, calls);
    ServeRest(s, act, k, n, results);
  }

  lemma ServeRest(s: seq<Ent>, act: Ent, k: nat, n: nat, results: map<nat, seq<byte>>)
    requires k < |s| && n <= s[k].left && n <= act.left && NoMeet(s) && Unfinished(s + [act], results)
    ensures NoMeet(s[k := Served(s[k], n)]) && Unfinished(s[k := Served(s[k], n)] + [Advance(act, n)], results)
  {
    var s', all := s[k := Served(s[k], n)], s + [act];
    var all' := s' + [Advance(act, n)];
    forall i | 0 <= i < |all'|
      ensures all'[i].id !in results
    {
      assert all[i].id !in results && all'[i].id == all[i].id;
    }
  }
}
