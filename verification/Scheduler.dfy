/** kernel/schedule.c: round robin over the process table, with process 0 as the idle one. */
module Scheduler {
  import opened Basics

  /** How far slot `p` is behind slot `cur` in the order of the scan: 1 to 9, then 1 again;
      the slot itself comes last. */
  function Distance(cur: nat, p: nat): int {
    if cur == 0 then p else if p > cur then p - cur else p - cur + (MAX_PROCESS - 1)
  }

  /** The slots the scan looks at: all but 0 and, unless it is 0, the current one. */
  predicate Scanned(cur: nat, i: nat) {
    1 <= i < MAX_PROCESS && i != cur
  }

  ghost predicate NobodyReady(t: seq<Status>, cur: nat)
    requires |t| == MAX_PROCESS
  {
    forall i: nat :: Scanned(cur, i) ==> t[i] != Ready
  }

  /** `i` is the first ready slot behind the current one. */
  ghost predicate FirstReady(t: seq<Status>, cur: nat, i: nat)
    requires |t| == MAX_PROCESS
  {
    Scanned(cur, i) && t[i] == Ready && forall j: nat :: Scanned(cur, j) && t[j] == Ready ==> Distance(cur, i) <= Distance(cur, j)
  }

  /** Control passed from one slot to another, or stayed. */
  ghost predicate Passed(t: seq<Status>, cur: nat, t': seq<Status>, cur': nat) {
    && |t| == |t'| == MAX_PROCESS && cur < MAX_PROCESS && cur' < MAX_PROCESS
    && (cur' == cur ==> t' == t)
    && (cur' != cur ==>
          && t'[cur'] == Running && t'[cur] == (if t[cur] == Running then Ready else t[cur])
          && forall i :: 0 <= i < MAX_PROCESS && i != cur && i != cur' ==> t'[i] == t[i])
  }

  /** One call of `schedule`: the slot it leaves current, and the table. */
  ghost predicate Scheduled(t: seq<Status>, cur: nat, t': seq<Status>, cur': nat) {
    && Passed(t, cur, t', cur')
    && (if NobodyReady(t, cur) then cur' == (if t[cur] == Running then cur else 0) else FirstReady(t, cur, cur'))
  }

  /** A call into the scheduler. */
  datatype Op = Tick | Blocks(pid: nat) | Unblocks(pid: nat)

  class Table {
    const status: array<Status>
    var curpid: nat

    ghost predicate Valid()
      reads this, status
    {
      status.Length == MAX_PROCESS && curpid < MAX_PROCESS
    }

    constructor (t: seq<Status>, cur: nat)
      requires |t| == MAX_PROCESS && cur < MAX_PROCESS
      ensures Valid() && status[..] == t && curpid == cur && fresh(status)
    {
      status := new Status[MAX_PROCESS](i requires 0 <= i < MAX_PROCESS => t[i]);
      curpid := cur;
    }

    /** The process that gives way stays ready to run if it was running. */
    method SwitchTo(pid: nat)
      requires Valid() && pid < MAX_PROCESS
      modifies this`curpid, status
      ensures Valid() && curpid == pid && Passed(old(status[..]), old(curpid), status[..], pid)
      ensures pid == old(curpid) ==> status[..] == old(status[..])
      ensures pid != old(curpid) ==>
        status[pid] == Running && status[old(curpid)] == if old(status[curpid]) == Running then Ready else old(status[curpid])
      ensures forall i :: 0 <= i < MAX_PROCESS && i != pid && i != old(curpid) ==> status[i] == old(status[i])
    {
      if pid == curpid { return; }
      if status[curpid] == Running {
        status[curpid] := Ready;
      }
      curpid := pid;
      status[curpid] := Running;
    }

    /** The scan wraps when it has looked at the last slot; with the last slot current it
        would start behind the table and never wrap. */
    method Schedule()
      requires Valid() && curpid < MAX_PROCESS - 1
      modifies this`curpid, status
      ensures Valid() && Scheduled(old(status[..]), old(curpid), status[..], curpid)
      ensures curpid == old(curpid) ==> status[..] == old(status[..])
      ensures curpid != old(curpid) ==>
        && status[curpid] == Running && status[old(curpid)] == (if old(status[curpid]) == Running then Ready else old(status[curpid]))
        && forall i :: 0 <= i < MAX_PROCESS && i != curpid && i != old(curpid) ==> status[i] == old(status[i])
    {
      if curpid == 0 {
        for i := 1 to MAX_PROCESS
          invariant Valid() && curpid == 0 && status[..] == old(status[..])
          invariant forall j :: 1 <= j < i ==> status[j] != Ready
        {
          if status[i] == Ready {
            SwitchTo(i);
            return;
          }
        }
      } else {
        var i := curpid + 1;
        while i != curpid
          invariant Valid() && curpid == old(curpid) && status[..] == old(status[..]) && 1 <= i < MAX_PROCESS
          invariant forall j: nat :: Scanned(curpid, j) && Distance(curpid, j) < Distance(curpid, i) ==> status[j] != Ready
          decreases MAX_PROCESS - Distance(curpid, i)
        {
          if status[i] == Ready {
            SwitchTo(i);
            return;
          }
          if i == MAX_PROCESS - 1 { i := 0; }
          i := i + 1;
        }
      }
      if status[curpid] != Running {
        SwitchTo(0);
      }
    }

    /** `block` of a process. */
    method Block(pid: nat)
      requires Valid() && pid < MAX_PROCESS && curpid < MAX_PROCESS - 1
      modifies this`curpid, status
      ensures Valid()
      ensures if pid == 0 || old(status[pid]) == Unuse then status[..] == old(status[..]) && curpid == old(curpid)
              else Scheduled(old(status[..])[pid := Waiting], old(curpid), status[..], curpid)
    {
      if pid == 0 || status[pid] == Unuse { return; }
      status[pid] := Waiting;
      Schedule();
    }

    method Unblock(pid: nat)
      requires Valid() && pid < MAX_PROCESS
      modifies status
      ensures Valid() && status[..] == if old(status[pid]) == Unuse then old(status[..]) else old(status[..])[pid := Ready]
    {
      if status[pid] == Unuse { return; }
      status[pid] := Ready;
    }

    /** Any calls in any order, up to one of a slot that is none or with the last slot current;
        `hist` holds the table and the current slot before each call and at the end. */
    method Run(ops: seq<Op>) returns (n: nat, ghost hist: seq<State>)
      requires Valid()
      modifies this`curpid, status
      ensures Valid() && n <= |ops| && |hist| == n + 1
      ensures hist[0] == State(old(status[..]), old(curpid)) && hist[n] == State(status[..], curpid)
      ensures forall k, l :: 0 <= k < n && l == k + 1 ==> OneCall(hist[k], ops[k], hist[l])
      ensures n < |ops| ==> curpid == MAX_PROCESS - 1 || (!ops[n].Tick? && ops[n].pid >= MAX_PROCESS)
    {
      hide OneCall;
      n, hist := 0, [State(status[..], curpid)];
      while n < |ops| && curpid < MAX_PROCESS - 1 && (ops[n].Tick? || ops[n].pid < MAX_PROCESS)
        invariant Valid() && n <= |ops| && |hist| == n + 1
        invariant hist[0] == State(old(status[..]), old(curpid)) && hist[n] == State(status[..], curpid)
        invariant forall k, l :: 0 <= k < n && l == k + 1 ==> OneCall(hist[k], ops[k], hist[l])
      {
        ghost var before := State(status[..], curpid);
        match ops[n] {
          case Tick => Schedule();
          case Blocks(p) => Block(p);
          case Unblocks(p) => Unblock(p);
        }
        OneCallIs(before, ops[n], State(status[..], curpid));
        hist := hist + [State(status[..], curpid)];
        n := n + 1;
      }
    }
  }

  /** The idle process runs only if nobody else can. */
  lemma IdleOnlyWhenNobody(t: seq<Status>, cur: nat, t': seq<Status>, cur': nat)
    requires |t| == MAX_PROCESS && cur < MAX_PROCESS && Scheduled(t, cur, t', cur')
    ensures cur' == 0 && cur != 0 ==> t[cur] != Running && forall i :: 1 <= i < MAX_PROCESS && i != cur ==> t[i] != Ready
  {
  }

  // ---- fairness

  datatype State = State(t: seq<Status>, cur: nat)

  ghost predicate Fine(s: State) {
    |s.t| == MAX_PROCESS && s.cur < MAX_PROCESS
  }

  /** The call runs the scan: a tick does, and blocking a process that can be blocked. */
  ghost predicate Scans(s: State, op: Op)
    requires Fine(s)
  {
    op.Tick? || (op.Blocks? && 1 <= op.pid < MAX_PROCESS && s.t[op.pid] != Unuse)
  }

  /** What one call does. */
  ghost predicate OneCall(s: State, op: Op, s': State) {
    && Fine(s) && Fine(s') && s.cur < MAX_PROCESS - 1
    && match op
       case Tick => Scheduled(s.t, s.cur, s'.t, s'.cur)
       case Blocks(p) => if Scans(s, op) then Scheduled(s.t[p := Waiting], s.cur, s'.t, s'.cur) else s' == s
       case Unblocks(p) => p < MAX_PROCESS && s' == if s.t[p] == Unuse then s else s.(t := s.t[p := Ready])
  }

  lemma OneCallIs(s: State, op: Op, s': State)
    requires Fine(s) && Fine(s') && s.cur < MAX_PROCESS - 1 && (op.Tick? || op.pid < MAX_PROCESS)
    requires match op
      case Tick => Scheduled(s.t, s.cur, s'.t, s'.cur)
      case Blocks(p) =>
        if p == 0 || s.t[p] == Unuse then s' == s else Scheduled(s.t[p := Waiting], s.cur, s'.t, s'.cur)
      case Unblocks(p) => s' == State(if s.t[p] == Unuse then s.t else s.t[p := Ready], s.cur)
    ensures OneCall(s, op, s')
  {
  }

  /** Nobody but the current process is marked running, and `p` is ready or the current one. */
  ghost predicate Awaits(s: State, p: nat) {
    && Fine(s) && 1 <= p < MAX_PROCESS - 1
    && (forall i :: 0 <= i < MAX_PROCESS && s.t[i] == Running ==> i == s.cur)
    && (s.t[p] == Ready || s.t[p] == Running)
  }

  /** Every call that picks another process brings a ready one nearer. */
  lemma Closer(t: seq<Status>, cur: nat, t': seq<Status>, cur': nat, p: nat)
    requires cur < MAX_PROCESS - 1 && cur' < MAX_PROCESS - 1 && Scheduled(t, cur, t', cur')
    requires 1 <= p < MAX_PROCESS - 1 && t[p] == Ready && p != cur && cur' != p
    ensures Distance(cur', p) < Distance(cur, p)
  {
    assert Scanned(cur, p);
  }

  /** A process that is not blocked itself stays ready over every call that does not pick it,
      and comes nearer with every scan. */
  lemma CallKeeps(s: State, op: Op, s': State, p: nat)
    requires OneCall(s, op, s') && Awaits(s, p) && op != Blocks(p) && s.cur != p && s'.cur < MAX_PROCESS - 1
    ensures Awaits(s', p)
    ensures s'.cur != p ==> Distance(s'.cur, p) <= Distance(s.cur, p) - if Scans(s, op) then 1 else 0
  {
    hide Scheduled;
    match op
    case Tick =>
      ScanKeeps(s, s', p);
    case Blocks(q) =>
      if Scans(s, op) { ScanKeeps(s.(t := s.t[q := Waiting]), s', p); }
    case Unblocks(q) =>
  }

  lemma ScanKeeps(s: State, s': State, p: nat)
    requires Awaits(s, p) && s.cur < MAX_PROCESS - 1 && Fine(s') && Scheduled(s.t, s.cur, s'.t, s'.cur)
    requires s.cur != p && s'.cur < MAX_PROCESS - 1
    ensures Awaits(s', p) && (s'.cur != p ==> Distance(s'.cur, p) < Distance(s.cur, p))
  {
    if s'.cur != p { Closer(s.t, s.cur, s'.t, s'.cur, p); }
  }

  /** The scans among the first `n` calls of a history. */
  ghost function ScansIn(hist: seq<State>, ops: seq<Op>, n: nat): nat
    requires n <= |ops| && n <= |hist| && forall k :: 0 <= k < n ==> Fine(hist[k])
  {
    if n == 0 then 0 else ScansIn(hist, ops, n - 1) + if Scans(hist[n - 1], ops[n - 1]) then 1 else 0
  }

  ghost predicate History(hist: seq<State>, ops: seq<Op>) {
    && |hist| == |ops| + 1
    && (forall k :: 0 <= k < |hist| ==> Fine(hist[k]) && hist[k].cur < MAX_PROCESS - 1)
    && (forall k, l :: 0 <= k < |ops| && l == k + 1 ==> OneCall(hist[k], ops[k], hist[l]))
  }

  lemma {:induction false} Waits(hist: seq<State>, ops: seq<Op>, p: nat, n: nat)
    requires History(hist, ops) && n <= |ops| && Awaits(hist[0], p)
    requires forall k :: 0 <= k < n ==> ops[k] != Blocks(p)
    requires forall k :: 0 <= k <= n ==> hist[k].cur != p
    ensures Awaits(hist[n], p) && ScansIn(hist, ops, n) <= Distance(hist[0].cur, p) - Distance(hist[n].cur, p)
  {
    hide OneCall, Awaits;
    if n > 0 {
      Waits(hist, ops, p, n - 1);
      CallKeeps(hist[n - 1], ops[n - 1], hist[n], p);
    }
  }

  lemma {:induction false} Reaches(hist: seq<State>, ops: seq<Op>, n: nat, m: nat) returns (k: nat)
    requires n <= |ops| && n <= |hist| && (forall k :: 0 <= k < n ==> Fine(hist[k])) && ScansIn(hist, ops, n) >= m
    ensures k <= n && ScansIn(hist, ops, k) == m && forall l :: 0 <= l <= k ==> ScansIn(hist, ops, l) <= m
  {
    k := n;
    if n == 0 {
      return;
    }
    if ScansIn(hist, ops, n) == m {
      forall l | 0 <= l <= n
        ensures ScansIn(hist, ops, l) <= m
      {
        Grows(hist, ops, l, n);
      }
    } else {
      k := Reaches(hist, ops, n - 1, m);
    }
  }

  lemma {:induction false} Grows(hist: seq<State>, ops: seq<Op>, l: nat, n: nat)
    requires l <= n <= |ops| && n <= |hist| && forall k :: 0 <= k < n ==> Fine(hist[k])
    ensures ScansIn(hist, ops, l) <= ScansIn(hist, ops, n)
  {
    if l < n { Grows(hist, ops, l, n - 1); }
  }

  /** Fairness: a process that is ready or running, and that nobody blocks, is current after at
      most MAX_PROCESS - 1 scans, whatever is done to the others. */
  lemma Fair(hist: seq<State>, ops: seq<Op>, p: nat)
    requires History(hist, ops) && Awaits(hist[0], p) && Blocks(p) !in ops
    requires ScansIn(hist, ops, |ops|) >= MAX_PROCESS - 1
    ensures exists k :: 0 <= k <= |ops| && hist[k].cur == p && ScansIn(hist, ops, k) <= MAX_PROCESS - 1
  {
    hide OneCall, ScansIn;
    var n := Reaches(hist, ops, |ops|, MAX_PROCESS - 1);
    if forall k :: 0 <= k <= n ==> hist[k].cur != p {
      Waits(hist, ops, p, n);
      Near(hist[0].cur, hist[n].cur, p);
    }
  }

  lemma Near(c: nat, c': nat, p: nat)
    requires c < MAX_PROCESS - 1 && c' < MAX_PROCESS - 1 && 1 <= p < MAX_PROCESS - 1 && c != p && c' != p
    ensures Distance(c, p) - Distance(c', p) < MAX_PROCESS - 1
  {
  }
}
