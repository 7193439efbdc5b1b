/** The table of client processes of the shared-memory chat server: a dense array of records, and
    an index from pid to record that is kept right when a record is moved into a hole. */
module ProcessTable {

  const USER_LIMIT := 5
  const PROCESS_LIMIT := 4194304

  /** client_data: the client's socket, the process that serves it, our end of the pipe to it. */
  datatype User = User(sock: int, pid: int, pipe: int)

  predicate IsPid(p: int) {
    0 < p < PROCESS_LIMIT
  }

  datatype Table = Table(users: seq<User>, subMapIdx: seq<int>) {
    /** Every record is found through its pid, and no two records share a pipe. */
    ghost predicate Consistent() {
      && |users| <= USER_LIMIT && |subMapIdx| == PROCESS_LIMIT
      && (forall i | 0 <= i < |users| :: IsPid(users[i].pid) && subMapIdx[users[i].pid] == i)
      && (forall i, j | 0 <= i < j < |users| :: users[i].pipe != users[j].pipe)
    }

    /** The pid's index entry leads to its record. */
    predicate Knows(pid: int)
      requires |subMapIdx| == PROCESS_LIMIT
    {
      IsPid(pid) && 0 <= subMapIdx[pid] < |users| && users[subMapIdx[pid]].pid == pid
    }
  }

  datatype Op =
    | Accept(cfd: int, pid: int, pipe: int)   // what accept, fork and socketpair return
    | Reap(pid: int)                          // what waitpid returns

  // ---------- The reference: who is alive, by pid ----------

  type Registry = map<int, User>

  /** What the operating system promises: a new process has a pid, and a new pipe a descriptor,
      that nobody alive holds; waitpid returns a child that is still unreaped. */
  ghost predicate Legal(m: Registry, op: Op) {
    match op
    case Accept(cfd, pid, pipe) =>
      pid < 0 || (IsPid(pid) && pid !in m && forall p | p in m :: m[p].pipe != pipe)
    case Reap(pid) => pid in m
  }

  ghost function RegistryStep(m: Registry, op: Op): Registry {
    match op
    case Accept(cfd, pid, pipe) =>
      if cfd < 0 || |m| >= 5 || pid < 0 then m else m[pid := User(cfd, pid, pipe)]
    case Reap(pid) => m - {pid}
  }

  ghost predicate LegalRun(m: Registry, ops: seq<Op>)
    decreases |ops|
  {
    ops == [] || (Legal(m, ops[0]) && LegalRun(RegistryStep(m, ops[0]), ops[1..]))
  }

  ghost function RegistryRun(m: Registry, ops: seq<Op>): Registry
    decreases |ops|
  {
    if ops == [] then m else RegistryRun(RegistryStep(m, ops[0]), ops[1..])
  }

  // ---------- The table ----------

  function Added(t: Table, u: User): Table
    requires |t.subMapIdx| == PROCESS_LIMIT && IsPid(u.pid)
  {
    Table(t.users + [u], t.subMapIdx[u.pid := |t.users|])
  }

  function Accepted(t: Table, cfd: int, pid: int, pipe: int): Table
    requires |t.subMapIdx| == PROCESS_LIMIT && (pid < 0 || IsPid(pid))
  {
    if cfd < 0 || |t.users| >= USER_LIMIT || pid < 0 then t else Added(t, User(cfd, pid, pipe))
  }

  /** The last record fills the hole, then its index entry is rewritten: when the hole is the
      last place this is the entry of the process that has just died. */
  function Reaped(t: Table, pid: int): Table
    requires |t.subMapIdx| == PROCESS_LIMIT && IsPid(pid)
    requires t.Knows(pid) || t.subMapIdx[pid] == -1
    requires forall i | 0 <= i < |t.users| :: IsPid(t.users[i].pid)
  {
    var del := t.subMapIdx[pid];
    var cleared := t.subMapIdx[pid := -1];
    if del < 0 || del > USER_LIMIT then t.(subMapIdx := cleared)
    else
      var last := t.users[|t.users| - 1];
      assert IsPid(last.pid);
      Table(t.users[del := last][..|t.users| - 1], cleared[last.pid := del])
  }

  /** The pipes a message that came in on `fd` is passed on to. */
  function Relayed(users: seq<User>, fd: int): (to: seq<int>)
    ensures forall p | p in to :: p != fd
  {
    if users == [] then []
    else
      var u := users[|users| - 1];
      if u.pipe == fd then Relayed(users[..|users| - 1], fd)
      else Relayed(users[..|users| - 1], fd) + [u.pipe]
  }

  /** The table holds exactly the registry's records. */
  ghost predicate Represents(t: Table, m: Registry) {
    && t.Consistent() && |t.users| == |m|
    && (forall i | 0 <= i < |t.users| :: t.users[i].pid in m && m[t.users[i].pid] == t.users[i])
    && (forall p | p in m :: t.Knows(p))
  }

  lemma AcceptRefines(t: Table, m: Registry, op: Op)
    requires Represents(t, m) && op.Accept? && Legal(m, op)
    ensures Represents(Accepted(t, op.cfd, op.pid, op.pipe), RegistryStep(m, op))
  {
    if op.cfd >= 0 && |m| < USER_LIMIT && op.pid >= 0 {
      var t' := Accepted(t, op.cfd, op.pid, op.pipe);
      forall i | 0 <= i < |t.users| ensures t.users[i].pid != op.pid && t.users[i].pipe != op.pipe {
        assert t.users[i].pid in m;
      }
      assert |m[op.pid := User(op.cfd, op.pid, op.pipe)]| == |m| + 1;
    }
  }

  lemma ReapKeepsConsistent(t: Table, pid: int)
    requires t.Consistent() && t.Knows(pid)
    ensures var t' := Reaped(t, pid); t'.Consistent() && |t'.users| == |t.users| - 1
  {
    var t', del, n := Reaped(t, pid), t.subMapIdx[pid], |t.users|;
    forall i | 0 <= i < n - 1
      ensures t'.users[i] == t.users[if i == del then n - 1 else i]
           && t'.subMapIdx[t'.users[i].pid] == i
    {
    }
  }

  /** Reaping `pid` removes its record, and no other: everybody else is still found. */
  lemma ReapFindsTheOthers(t: Table, pid: int, p: int)
    requires t.Consistent() && t.Knows(pid) && t.Knows(p) && p != pid
    ensures Reaped(t, pid).Knows(p)
    ensures var t' := Reaped(t, pid); t'.users[t'.subMapIdx[p]] == t.users[t.subMapIdx[p]]
  {
    var del, n := t.subMapIdx[pid], |t.users|;
    assert t.subMapIdx[p] != del;
    assert t.subMapIdx[p] == n - 1 <==> t.users[n - 1].pid == p;
  }

  lemma ReapRefines(t: Table, m: Registry, pid: int)
    requires Represents(t, m) && Legal(m, Reap(pid))
    ensures Represents(Reaped(t, pid), m - {pid})
  {
    var t', n := Reaped(t, pid), |t.users|;
    var del := t.subMapIdx[pid];
    assert t.Knows(pid);
    ReapKeepsConsistent(t, pid);
    assert (m - {pid}).Keys == m.Keys - {pid};
    forall i | 0 <= i < n - 1
      ensures t'.users[i].pid in m && t'.users[i].pid != pid && m[t'.users[i].pid] == t'.users[i]
    {
      assert t'.users[i] == t.users[if i == del then n - 1 else i];
    }
    forall p | p in m && p != pid ensures t'.Knows(p) {
      ReapFindsTheOthers(t, pid, p);
    }
  }

  /** The index entry of a dead process is cleared exactly when its record was not the last one:
      otherwise the dead pid's own entry is written again. */
  lemma DeadEntryIsClearedUnlessLast(t: Table, pid: int)
    requires t.Consistent() && t.Knows(pid)
    ensures Reaped(t, pid).subMapIdx[pid] == -1 <==> t.subMapIdx[pid] != |t.users| - 1
  {
    assert t.subMapIdx[pid] != |t.users| - 1 ==> t.users[|t.users| - 1].pid != pid;
  }

  // ---------- Runs ----------

  /** One step of the table. */
  ghost function TableStep(t: Table, op: Op): Table
    requires |t.subMapIdx| == PROCESS_LIMIT
    requires op.Accept? ==> op.pid < 0 || IsPid(op.pid)
    requires op.Reap? ==> t.Knows(op.pid)
    requires forall i | 0 <= i < |t.users| :: IsPid(t.users[i].pid)
  {
    match op
    case Accept(cfd, pid, pipe) => Accepted(t, cfd, pid, pipe)
    case Reap(pid) => Reaped(t, pid)
  }

  lemma StepRefines(t: Table, m: Registry, op: Op)
    requires Represents(t, m) && Legal(m, op)
    ensures op.Reap? ==> t.Knows(op.pid)
    ensures Represents(TableStep(t, op), RegistryStep(m, op))
  {
    match op
    case Accept(_, _, _) => AcceptRefines(t, m, op);
    case Reap(pid) => ReapRefines(t, m, pid);
  }

  ghost function TableRun(t: Table, m: Registry, ops: seq<Op>): Table
    requires Represents(t, m) && LegalRun(m, ops)
    decreases |ops|
  {
    if ops == [] then t
    else
      StepRefines(t, m, ops[0]);
      TableRun(TableStep(t, ops[0]), RegistryStep(m, ops[0]), ops[1..])
  }

  /** An established connection is refused exactly when five processes are alive. */
  lemma RefusesIffFiveAreAlive(t: Table, m: Registry, cfd: int, pid: int, pipe: int)
    requires Represents(t, m) && cfd >= 0 && pid >= 0 && Legal(m, Accept(cfd, pid, pipe))
    ensures Accepted(t, cfd, pid, pipe) == t <==> |m| == 5
    ensures |m| < 5 ==> Accepted(t, cfd, pid, pipe).Knows(pid)
  {
    assert |t.users| != USER_LIMIT ==> |Accepted(t, cfd, pid, pipe).users| == |t.users| + 1;
  }

  /** Over every legal run the table holds exactly the processes that are alive, at most five, and
      every reaped pid is looked up right. */
  lemma {:induction false} TableRefinesRegistry(t: Table, m: Registry, ops: seq<Op>)
    requires Represents(t, m) && LegalRun(m, ops)
    ensures Represents(TableRun(t, m, ops), RegistryRun(m, ops)) && |RegistryRun(m, ops)| <= 5
    decreases |ops|
  {
    if ops != [] {
      StepRefines(t, m, ops[0]);
      TableRefinesRegistry(TableStep(t, ops[0]), RegistryStep(m, ops[0]), ops[1..]);
    }
  }

  ghost function Without(m: Registry, gone: seq<int>): Registry {
    m - (set p | p in gone)
  }

  lemma WithoutNext(m: Registry, gone: seq<int>, i: nat)
    requires i < |gone| && gone[i] in m && gone[i] !in gone[..i]
    ensures gone[i] in Without(m, gone[..i])
    ensures Without(m, gone[..i]) - {gone[i]} == Without(m, gone[..i + 1])
  {
    assert gone[..i + 1] == gone[..i] + [gone[i]];
  }

  // ---------- Relay ----------

  lemma {:induction false} RelayedMembers(users: seq<User>, fd: int)
    requires forall i, j | 0 <= i < j < |users| :: users[i].pipe != users[j].pipe
    ensures forall i | 0 <= i < |users| && users[i].pipe != fd :: users[i].pipe in Relayed(users, fd)
    ensures forall p | p in Relayed(users, fd) :: exists i | 0 <= i < |users| :: users[i].pipe == p
    ensures forall a, b | 0 <= a < b < |Relayed(users, fd)| :: Relayed(users, fd)[a] != Relayed(users, fd)[b]
  {
    if users != [] {
      var rest, u := users[..|users| - 1], users[|users| - 1];
      RelayedMembers(rest, fd);
      forall p | p in Relayed(rest, fd) ensures p != u.pipe && exists i | 0 <= i < |users| :: users[i].pipe == p {
        var i :| 0 <= i < |rest| && rest[i].pipe == p;
        assert users[i].pipe == p;
      }
      forall i | 0 <= i < |rest| && users[i].pipe != fd ensures users[i].pipe in Relayed(rest, fd) {
        assert users[i] == rest[i];
      }
    }
  }

  /** A message goes to every live process but its sender, once each. */
  lemma RelayReachesTheOthers(t: Table, m: Registry, sender: int)
    requires Represents(t, m) && sender in m
    ensures var to := Relayed(t.users, m[sender].pipe);
            && (forall p | p in m :: m[p].pipe in to <==> p != sender)
            && (forall q | q in to :: exists p | p in m :: m[p].pipe == q)
            && (forall a, b | 0 <= a < b < |to| :: to[a] != to[b])
  {
    var fd := m[sender].pipe;
    var to := Relayed(t.users, fd);
    RelayedMembers(t.users, fd);
    assert t.Knows(sender);
    forall p | p in m ensures m[p].pipe in to <==> p != sender {
      var i, j := t.subMapIdx[p], t.subMapIdx[sender];
      assert t.Knows(p);
      assert t.users[i] == m[p] && t.users[j] == m[sender];
      assert i != j ==> t.users[i].pipe != t.users[j].pipe;
    }
    forall q | q in to ensures exists p | p in m :: m[p].pipe == q {
      var i :| 0 <= i < |t.users| && t.users[i].pipe == q;
      assert m[t.users[i].pid].pipe == q;
    }
  }

  // ---------- The server's tables ----------

  class Server {
    const users: array<User>
    const subMapIdx: array<int>
    var userCnt: nat
    var terminate: bool
    var serverStop: bool

    ghost predicate Valid()
      reads this, users, subMapIdx
    {
      && users.Length == USER_LIMIT + 1 && userCnt <= USER_LIMIT
      && subMapIdx.Length == PROCESS_LIMIT
      && View().Consistent()
    }

    ghost function View(): Table
      reads this, users, subMapIdx
      requires userCnt <= users.Length
    {
      Table(users[..userCnt], subMapIdx[..])
    }

    constructor ()
      ensures Valid() && fresh(users) && fresh(subMapIdx) && !terminate && !serverStop
      ensures Represents(View(), map[])
    {
      users := new User[USER_LIMIT + 1];
      subMapIdx := new int[PROCESS_LIMIT](_ => -1);
      userCnt, terminate, serverStop := 0, false, false;
    }

    /** A connection: `refused` when five clients are being served. */
    method AcceptClient(cfd: int, pid: int, pipe: int) returns (refused: bool)
      requires Valid()
      requires pid < 0 || (IsPid(pid) && !View().Knows(pid))
      requires forall u | u in View().users :: u.pipe != pipe
      modifies this`userCnt, users, subMapIdx
      ensures Valid() && View() == Accepted(old(View()), cfd, pid, pipe)
      ensures refused <==> cfd >= 0 && old(userCnt) == USER_LIMIT
    {
      if cfd < 0 {
        return false;
      }
      if userCnt >= USER_LIMIT {
        return true;
      }
      ghost var t := View();
      users[userCnt] := User(cfd, users[userCnt].pid, pipe);
      assert users[..userCnt] == t.users;
      if pid < 0 {
        return false;
      }
      users[userCnt] := users[userCnt].(pid := pid);
      subMapIdx[pid] := userCnt;
      userCnt := userCnt + 1;
      assert users[..userCnt] == t.users + [User(cfd, pid, pipe)];
      return false;
    }

    /** waitpid has returned `pid`: its pipe, if it has one, is closed. */
    method ReapChild(pid: int) returns (closed: int)
      requires Valid() && IsPid(pid) && (View().Knows(pid) || subMapIdx[pid] == -1)
      modifies this`userCnt, users, subMapIdx
      ensures Valid() && View() == Reaped(old(View()), pid)
      ensures closed == if old(View().Knows(pid)) then old(users[subMapIdx[pid]].pipe) else -1
    {
      ghost var t := View();
      var delIdx := subMapIdx[pid];
      subMapIdx[pid] := -1;
      if delIdx < 0 || delIdx > USER_LIMIT {
        return -1;
      }
      ReapKeepsConsistent(t, pid);
      closed := users[delIdx].pipe;
      userCnt := userCnt - 1;
      users[delIdx] := users[userCnt];
      subMapIdx[users[delIdx].pid] := delIdx;
      assert users[..userCnt] == Reaped(t, pid).users;
    }

    method ReapListed(pid: int, ghost m: Registry)
      requires Valid() && Represents(View(), m) && pid in m
      modifies this`userCnt, users, subMapIdx
      ensures Valid() && Represents(View(), m - {pid})
    {
      ReapRefines(View(), m, pid);
      var _ := ReapChild(pid);
    }

    method ReapAll(gone: seq<int>, ghost m: Registry)
      requires Valid() && Represents(View(), m)
      requires forall i | 0 <= i < |gone| :: gone[i] in m && gone[i] !in gone[..i]
      modifies this`userCnt, users, subMapIdx
      ensures Valid() && Represents(View(), Without(m, gone))
    {
      ghost var left := m;
      var i := 0;
      while i < |gone|
        invariant 0 <= i <= |gone| && left == Without(m, gone[..i])
        invariant Valid() && Represents(View(), left)
      {
        WithoutNext(m, gone, i);
        ReapListed(gone[i], left);
        left := left - {gone[i]};
        i := i + 1;
      }
      assert gone[..i] == gone;
    }

    /** SIGCHLD: waitpid returns the pids of `gone` one after the other. A server that has been told
        to terminate stops when the last process is gone. */
    method ChildSignal(gone: seq<int>, ghost m: Registry)
      requires Valid() && Represents(View(), m)
      requires forall i | 0 <= i < |gone| :: gone[i] in m && gone[i] !in gone[..i]
      modifies this`userCnt, this`serverStop, users, subMapIdx
      ensures Valid() && Represents(View(), Without(m, gone))
      ensures serverStop <==> old(serverStop) || (terminate && userCnt == 0)
    {
      ReapAll(gone, m);
      if terminate && userCnt == 0 {
        serverStop := true;
      }
    }

    /** SIGTERM or SIGINT: every live process is signalled, once. */
    method StopSignal(ghost m: Registry) returns (killed: seq<int>)
      requires Valid() && Represents(View(), m)
      modifies this`terminate, this`serverStop
      ensures Valid() && View() == old(View())
      ensures |killed| == |m| && forall p :: p in killed <==> p in m
      ensures serverStop <==> old(serverStop) || m == map[]
      ensures terminate <==> old(terminate) || m != map[]
    {
      killed := [];
      if userCnt == 0 {
        serverStop := true;
        return;
      }
      var i := 0;
      while i < userCnt
        invariant 0 <= i <= userCnt && |killed| == i
        invariant forall k | 0 <= k < i :: killed[k] == users[k].pid
      {
        killed := killed + [users[i].pid];
        i := i + 1;
      }
      terminate := true;
      assert forall k | 0 <= k < userCnt :: killed[k] == View().users[k].pid;
      forall p | p in m ensures p in killed {
        assert View().Knows(p);
        assert killed[subMapIdx[p]] == p;
      }
      assert m != map[] by {
        assert View().users[0].pid in m;
      }
    }

    /** A message from the process behind the pipe `fd`. */
    method Relay(fd: int) returns (to: seq<int>)
      requires Valid()
      ensures to == Relayed(View().users, fd)
    {
      to := [];
      var j := 0;
      while j < userCnt
        invariant 0 <= j <= userCnt && to == Relayed(users[..j], fd)
      {
        assert users[..j + 1][..j] == users[..j];
        if users[j].pipe != fd {
          to := to + [users[j].pipe];
        }
        j := j + 1;
      }
    }
  }
}
