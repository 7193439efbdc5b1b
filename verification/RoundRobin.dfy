/** Round-robin dispatch of new connections to child processes, some of which die. */
module RoundRobin {
  import opened Lists

  const DEAD := -1

  /** The index `k` places after `from` on a ring of `n`. */
  function Ahead(from: nat, k: nat, n: nat): (i: nat)
    requires from < n && k < n
    ensures i < n
  {
    if from + k < n then from + k else from + k - n
  }

  /** The next place on the ring. */
  function After(i: nat, n: nat): (j: nat)
    requires i < n
    ensures j < n && j == (i + 1) % n
  {
    if i + 1 == n then
      assert n == n * 1 + 0;
      0
    else
      assert i + 1 == n * 0 + (i + 1);
      i + 1
  }

  /** How many places `x` is after `from`. */
  function Distance(from: nat, x: nat, n: nat): (d: nat)
    requires from < n && x < n
    ensures d < n && Ahead(from, d, n) == x
  {
    if x >= from then x - from else x + n - from
  }

  /** How many dead children the scan passes, looking from place `k` on; |pids| when all are dead. */
  function Passed(pids: seq<int>, from: nat, k: nat): (r: nat)
    requires from < |pids| && k <= |pids|
    ensures k <= r <= |pids|
    ensures r < |pids| ==> pids[Ahead(from, r, |pids|)] != DEAD
    ensures forall j | k <= j < r :: pids[Ahead(from, j, |pids|)] == DEAD
    decreases |pids| - k
  {
    if k == |pids| || pids[Ahead(from, k, |pids|)] != DEAD then k else Passed(pids, from, k + 1)
  }

  datatype State = State(pids: seq<int>, next: nat) {
    ghost predicate Valid() {
      next < |pids|
    }
  }

  datatype Op = Connection | Reaped(gone: seq<int>)

  predicate AllDead(pids: seq<int>) {
    forall j | 0 <= j < |pids| :: pids[j] == DEAD
  }

  /** Who gets the next connection; |pids| when nobody is left. */
  function Chosen(s: State): (ix: nat)
    requires s.Valid()
    ensures ix <= |s.pids| && (ix < |s.pids| ==> s.pids[ix] != DEAD)
  {
    var k := Passed(s.pids, s.next, 0);
    if k == |s.pids| then k else Ahead(s.next, k, |s.pids|)
  }

  /** A live child is found whenever there is one. */
  lemma ChosenFindsALiveChild(s: State)
    requires s.Valid()
    ensures Chosen(s) == |s.pids| <==> AllDead(s.pids)
  {
    var n, k := |s.pids|, Passed(s.pids, s.next, 0);
    if k == n {
      forall j | 0 <= j < n ensures s.pids[j] == DEAD {
        assert s.pids[Ahead(s.next, Distance(s.next, j, n), n)] == DEAD;
      }
    }
  }

  /** The children after waitpid has returned every pid of `gone`. */
  function Reap(pids: seq<int>, gone: seq<int>): (r: seq<int>)
    ensures |r| == |pids|
    ensures forall i | 0 <= i < |pids| :: r[i] == if pids[i] in gone then DEAD else pids[i]
  {
    seq(|pids|, i requires 0 <= i < |pids| => if pids[i] in gone then DEAD else pids[i])
  }

  function Step(s: State, op: Op): (r: State)
    requires s.Valid()
    ensures r.Valid() && |r.pids| == |s.pids|
  {
    match op
    case Reaped(gone) => s.(pids := Reap(s.pids, gone))
    case Connection =>
      var ix := Chosen(s);
      if ix == |s.pids| then s else s.(next := After(ix, |s.pids|))
  }

  function Run(s: State, ops: seq<Op>): (r: State)
    requires s.Valid()
    ensures r.Valid() && |r.pids| == |s.pids|
    decreases |ops|
  {
    if ops == [] then s else Run(Step(s, ops[0]), ops[1..])
  }

  /** How many connections of the run child `a` gets. */
  function Served(s: State, ops: seq<Op>, a: nat): nat
    requires s.Valid()
    decreases |ops|
  {
    if ops == [] then 0
    else (if ops[0].Connection? && Chosen(s) == a then 1 else 0) + Served(Step(s, ops[0]), ops[1..], a)
  }

  // ---------- Fairness ----------

  /** Child `a` comes before child `b` when the scan starts at `from`. */
  function Before(from: nat, a: nat, b: nat, n: nat): int
    requires from < n && a < n && b < n
  {
    if Distance(from, a, n) < Distance(from, b, n) then 1 else 0
  }

  /** One dispatch: it serves `a` only when `a` is before `b`, and then `b` is before `a`; it
      passes neither of them otherwise. */
  lemma DispatchAlternates(s: State, a: nat, b: nat)
    requires s.Valid() && a < |s.pids| && b < |s.pids| && a != b
    requires s.pids[a] != DEAD && s.pids[b] != DEAD
    ensures var n, ix := |s.pids|, Chosen(s);
            && ix < n
            && Before(Step(s, Connection).next, a, b, n)
               == Before(s.next, a, b, n) - (if ix == a then 1 else 0) + (if ix == b then 1 else 0)
  {
    var n, k := |s.pids|, Passed(s.pids, s.next, 0);
    var da, db := Distance(s.next, a, n), Distance(s.next, b, n);
    assert s.pids[Ahead(s.next, da, n)] != DEAD && s.pids[Ahead(s.next, db, n)] != DEAD;
    assert k <= da && k <= db;
    assert da != db;
  }

  lemma {:induction false} DeadStaysDead(s: State, ops: seq<Op>, a: nat)
    requires s.Valid() && a < |s.pids| && s.pids[a] == DEAD
    ensures Run(s, ops).pids[a] == DEAD
    decreases |ops|
  {
    if ops != [] {
      DeadStaysDead(Step(s, ops[0]), ops[1..], a);
    }
  }

  lemma {:induction false} ServiceDifference(s: State, ops: seq<Op>, a: nat, b: nat)
    requires s.Valid() && a < |s.pids| && b < |s.pids| && a != b
    requires Run(s, ops).pids[a] != DEAD && Run(s, ops).pids[b] != DEAD
    ensures Served(s, ops, a) - Served(s, ops, b)
         == Before(s.next, a, b, |s.pids|) - Before(Run(s, ops).next, a, b, |s.pids|)
    decreases |ops|
  {
    if s.pids[a] == DEAD {
      DeadStaysDead(s, ops, a);
    }
    if s.pids[b] == DEAD {
      DeadStaysDead(s, ops, b);
    }
    if ops != [] {
      if ops[0].Connection? {
        DispatchAlternates(s, a, b);
      }
      ServiceDifference(Step(s, ops[0]), ops[1..], a, b);
    }
  }

  /** Fairness: over any stretch of any run, two children that are alive at its end differ by at
      most one connection, whatever other children died meanwhile. */
  lemma RoundRobinIsFair(s: State, ops: seq<Op>, a: nat, b: nat)
    requires s.Valid() && a < |s.pids| && b < |s.pids|
    requires Run(s, ops).pids[a] != DEAD && Run(s, ops).pids[b] != DEAD
    ensures -1 <= Served(s, ops, a) - Served(s, ops, b) <= 1
  {
    if a != b {
      ServiceDifference(s, ops, a, b);
    }
  }

  // ---------- The pool object ----------

  function LivePids(pids: seq<int>): (r: seq<int>)
    ensures forall p :: multiset(r)[p] == if p == DEAD then 0 else multiset(pids)[p]
  {
    if pids == [] then []
    else
      var n := |pids| - 1;
      assert pids == pids[..n] + [pids[n]];
      if pids[n] == DEAD then LivePids(pids[..n]) else LivePids(pids[..n]) + [pids[n]]
  }

  /** The children whose pipes are closed once `gone` are reaped, each once. */
  ghost predicate IsClosed(closed: seq<nat>, pids: seq<int>, gone: seq<int>) {
    Distinct(closed) && forall i: nat :: i in closed <==> i < |pids| && pids[i] in gone
  }

  class ProcessPool {
    const pid: array<int>        // _sub_process[j]._pid
    var subProcessCnt: nat
    var stop: bool

    ghost predicate Valid()
      reads this, pid
    {
      subProcessCnt < pid.Length && (stop <==> AllDead(pid[..]))
    }

    ghost function View(): State
      reads this, pid
    {
      State(pid[..], subProcessCnt)
    }

    constructor (pids: seq<int>)
      requires pids != [] && forall p | p in pids :: p > 0
      ensures Valid() && fresh(pid) && View() == State(pids, 0)
    {
      pid := new int[|pids|](i requires 0 <= i < |pids| => pids[i]);
      subProcessCnt, stop := 0, false;
      new;
      assert pid[..] == pids && pids[0] in pids;
    }

    /** The scan for a live child: it ends after one round at the latest. */
    method Scan() returns (ix: nat)
      requires Valid()
      ensures ix < pid.Length
      ensures Chosen(View()) == if pid[ix] == DEAD then pid.Length else ix
    {
      var n := pid.Length;
      ghost var s := View();
      ghost var k := 0;
      ix := subProcessCnt;
      while true
        invariant k < n && ix == Ahead(subProcessCnt, k, n)
        invariant Passed(s.pids, s.next, 0) == Passed(s.pids, s.next, k)
        decreases n - k
      {
        if pid[ix] != DEAD {
          break;
        }
        assert After(ix, n) == (ix + 1) % n;
        ix, k := (ix + 1) % n, k + 1;
        if ix == subProcessCnt {
          break;
        }
      }
    }

    /** A new connection is announced to `child`; -1 when there is nobody left. */
    method Dispatch() returns (child: int)
      requires Valid()
      modifies this`subProcessCnt, this`stop
      ensures Valid() && View() == Step(old(View()), Connection)
      ensures child == if old(stop) then -1 else Chosen(old(View()))
      ensures stop == old(stop)
    {
      ChosenFindsALiveChild(View());
      var ix := Scan();
      if pid[ix] == DEAD {
        stop := true;
        return -1;
      }
      assert After(ix, pid.Length) == (ix + 1) % pid.Length;
      subProcessCnt := (ix + 1) % pid.Length;
      return ix;
    }

    /** The entry of one dead child is cleared, and its pipe closed. */
    method Bury(dead: int, ghost gone: seq<int>, ghost was: seq<int>, before: seq<nat>) returns (closed: seq<nat>)
      requires dead > 0 && pid[..] == Reap(was, gone) && IsClosed(before, was, gone)
      modifies pid
      ensures pid[..] == Reap(was, gone + [dead]) && IsClosed(closed, was, gone + [dead])
    {
      closed := before;
      ghost var now := pid[..];
      var j := 0;
      while j < pid.Length
        invariant 0 <= j <= pid.Length
        invariant forall i | 0 <= i < j :: pid[i] == if now[i] == dead then DEAD else now[i]
        invariant forall i | j <= i < pid.Length :: pid[i] == now[i]
        invariant Distinct(closed)
        invariant forall i: nat :: i in closed <==> i in before || (i < j && now[i] == dead)
      {
        if pid[j] == dead {
          closed := closed + [j];
          pid[j] := DEAD;
        }
        j := j + 1;
      }
    }

    /** SIGCHLD: waitpid returns the pids of `gone` one after the other; their entries are cleared
        and their pipes closed, and the parent stops exactly when no child is left. */
    method ReapChildren(gone: seq<int>) returns (closed: seq<nat>)
      requires Valid() && forall i | 0 <= i < |gone| :: gone[i] > 0
      modifies this`stop, pid
      ensures Valid() && View() == Step(old(View()), Reaped(gone))
      ensures Distinct(closed) && forall i: nat :: i in closed <==> i < pid.Length && old(pid[..])[i] in gone
    {
      ghost var was := pid[..];
      closed := [];
      var i := 0;
      while i < |gone|
        invariant 0 <= i <= |gone| && pid[..] == Reap(was, gone[..i]) && IsClosed(closed, was, gone[..i])
      {
        closed := Bury(gone[i], gone[..i], was, closed);
        assert gone[..i] + [gone[i]] == gone[..i + 1];
        i := i + 1;
      }
      assert gone[..i] == gone;
      stop := true;
      var j := 0;
      while j < pid.Length
        invariant 0 <= j <= pid.Length && pid[..] == Reap(was, gone)
        invariant stop <==> forall i | 0 <= i < j :: pid[i] == DEAD
      {
        if pid[j] != DEAD {
          stop := false;
        }
        j := j + 1;
      }
    }

    /** SIGTERM and SIGINT are passed on to the live children. */
    method Terminate() returns (killed: seq<int>)
      ensures killed == LivePids(pid[..])
      ensures forall p :: multiset(killed)[p] == if p == DEAD then 0 else multiset(pid[..])[p]
    {
      killed := [];
      var j := 0;
      while j < pid.Length
        invariant 0 <= j <= pid.Length && killed == LivePids(pid[..j])
      {
        assert pid[..j + 1][..j] == pid[..j];
        if pid[j] != DEAD {
          killed := killed + [pid[j]];
        }
        j := j + 1;
      }
      assert pid[..j] == pid[..];
    }
  }
}
