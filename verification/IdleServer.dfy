/** The server that closes idle clients: one timer per client in the ascending list, pushed
    back whenever the client sends something. */
module IdleServer {
  import opened Lists
  import opened TimerList

  const TIMESLOT := 5

  /** What recv on a client returned. */
  datatype Received = Data | Eof | Again | Failed

  function Socks(ts: seq<UtilTimer>): (r: seq<int>)
    ensures |r| == |ts|
  {
    seq(|ts|, i requires 0 <= i < |ts| => ts[i].sock)
  }

  lemma SocksMembers(ts: seq<UtilTimer>)
    ensures forall t | t in ts :: t.sock in Socks(ts)
    ensures forall fd | fd in Socks(ts) :: exists t :: t in ts && t.sock == fd
    ensures Distinct(ts) && (forall a, b | a in ts && b in ts && a.sock == b.sock :: a == b) ==> Distinct(Socks(ts))
  {
    forall t | t in ts ensures t.sock in Socks(ts) {
      var i :| 0 <= i < |ts| && ts[i] == t;
      assert Socks(ts)[i] == t.sock;
    }
    forall fd | fd in Socks(ts) ensures exists t :: t in ts && t.sock == fd {
      var i :| 0 <= i < |ts| && Socks(ts)[i] == fd;
      assert ts[i] in ts;
    }
    if Distinct(ts) && forall a, b | a in ts && b in ts && a.sock == b.sock :: a == b {
      forall i, j | 0 <= i < j < |ts| ensures Socks(ts)[i] != Socks(ts)[j] {
        assert ts[i] in ts && ts[j] in ts;
      }
    }
  }

  /** Each open client has exactly one timer, set three slots after it was last heard of. */
  ghost predicate OneTimerEach(timers: seq<UtilTimer>, users: map<int, UtilTimer>, lastSeen: map<int, int>)
    reads timers
  {
    && lastSeen.Keys <= users.Keys
    && (forall fd | fd in lastSeen ::
          users[fd] in timers && users[fd].sock == fd && users[fd].expire == lastSeen[fd] + 3 * TIMESLOT)
    && (forall t | t in timers :: t.sock in lastSeen && users[t.sock] == t)
  }

  lemma ExpiredClients(timers: seq<UtilTimer>, users: map<int, UtilTimer>, lastSeen: map<int, int>,
                       fired: seq<UtilTimer>, now: int)
    requires OneTimerEach(timers, users, lastSeen) && Distinct(fired)
    requires forall t :: t in fired <==> t in timers && t.expire <= now
    ensures Distinct(Socks(fired))
    ensures forall fd :: fd in Socks(fired) <==> fd in lastSeen && lastSeen[fd] + 3 * TIMESLOT <= now
  {
    SocksMembers(fired);
    forall fd ensures fd in Socks(fired) <==> fd in lastSeen && lastSeen[fd] + 3 * TIMESLOT <= now {
      if fd in lastSeen {
        assert users[fd] in timers && users[fd].sock == fd;
      }
    }
  }

  lemma SurvivingClients(timers: seq<UtilTimer>, users: map<int, UtilTimer>, lastSeen: map<int, int>,
                         rest: seq<UtilTimer>, left: map<int, int>, now: int)
    requires OneTimerEach(timers, users, lastSeen)
    requires forall t :: t in rest <==> t in timers && now < t.expire
    requires left == map fd | fd in lastSeen && now < lastSeen[fd] + 3 * TIMESLOT :: lastSeen[fd]
    ensures OneTimerEach(rest, users, left)
  {
    forall fd | fd in left ensures users[fd] in rest {
      assert users[fd] in timers;
    }
  }

  lemma TickClosesIdle(timers: seq<UtilTimer>, users: map<int, UtilTimer>, lastSeen: map<int, int>,
                       fired: seq<UtilTimer>, rest: seq<UtilTimer>, left: map<int, int>, now: int)
    requires OneTimerEach(timers, users, lastSeen) && Distinct(fired)
    requires forall t :: t in fired <==> t in timers && t.expire <= now
    requires forall t :: t in rest <==> t in timers && now < t.expire
    requires left == map fd | fd in lastSeen && fd !in Socks(fired) :: lastSeen[fd]
    ensures OneTimerEach(rest, users, left) && Distinct(Socks(fired))
    ensures forall fd :: fd in Socks(fired) <==> fd in lastSeen && lastSeen[fd] + 3 * TIMESLOT <= now
  {
    ExpiredClients(timers, users, lastSeen, fired, now);
    var late := map fd | fd in lastSeen && now < lastSeen[fd] + 3 * TIMESLOT :: lastSeen[fd];
    assert forall fd :: fd in left <==> fd in late;
    assert left == late;
    SurvivingClients(timers, users, lastSeen, rest, left, now);
  }

  // ---------- The reference: when each open client was last heard of ----------

  datatype Op =
    | Connect(cfd: int, at: int)
    | Hear(fd: int, received: Received, at: int)
    | Ring                                       // SIGALRM
    | Close(now: int)                            // the end of a round of events

  /** The open clients with the time they were last heard of, and whether the alarm rang. */
  datatype Clients = Clients(lastSeen: map<int, int>, timeout: bool)

  /** A new connection gets a descriptor that is not in use; events come on open connections. */
  predicate Legal(c: Clients, op: Op) {
    match op
    case Connect(cfd, _) => cfd !in c.lastSeen
    case Hear(fd, _, _) => fd in c.lastSeen
    case Ring => true
    case Close(_) => true
  }

  function Idle(c: Clients, now: int): set<int> {
    set fd | fd in c.lastSeen && c.timeout && c.lastSeen[fd] + 15 <= now
  }

  function After(c: Clients, op: Op): Clients {
    match op
    case Connect(cfd, at) => c.(lastSeen := c.lastSeen[cfd := at])
    case Hear(fd, Data, at) => c.(lastSeen := c.lastSeen[fd := at])
    case Hear(_, Again, _) => c
    case Hear(fd, _, _) => c.(lastSeen := c.lastSeen - {fd})
    case Ring => c.(timeout := true)
    case Close(now) => Clients(c.lastSeen - Idle(c, now), false)
  }

  ghost predicate LegalRun(c: Clients, ops: seq<Op>)
    decreases |ops|
  {
    ops == [] || (Legal(c, ops[0]) && LegalRun(After(c, ops[0]), ops[1..]))
  }

  /** Whom each end of a round closes for being idle. */
  function Closings(c: Clients, ops: seq<Op>): seq<set<int>>
    decreases |ops|
  {
    if ops == [] then []
    else
      var rest := Closings(After(c, ops[0]), ops[1..]);
      if ops[0].Close? then [Idle(c, ops[0].now)] + rest else rest
  }

  /** For each end of a round: whether the alarm had rung, and the time. */
  function Rounds(timeout: bool, ops: seq<Op>): seq<(bool, int)>
    decreases |ops|
  {
    if ops == [] then []
    else if ops[0].Close? then [(timeout, ops[0].now)] + Rounds(false, ops[1..])
    else Rounds(timeout || ops[0].Ring?, ops[1..])
  }

  /** Round `j` is the first with an alarm that ends at or after `due`. */
  predicate FirstAfter(rounds: seq<(bool, int)>, due: int, j: nat)
    requires j < |rounds|
  {
    && rounds[j].0 && due <= rounds[j].1
    && forall i | 0 <= i < j :: !(rounds[i].0 && due <= rounds[i].1)
  }

  ghost predicate Silent(ops: seq<Op>, fd: int) {
    forall i | 0 <= i < |ops| :: (ops[i].Connect? ==> ops[i].cfd != fd) && (ops[i].Hear? ==> ops[i].fd != fd)
  }

  lemma {:induction false} AsManyRounds(c: Clients, ops: seq<Op>)
    ensures |Closings(c, ops)| == |Rounds(c.timeout, ops)|
    decreases |ops|
  {
    if ops != [] {
      AsManyRounds(After(c, ops[0]), ops[1..]);
    }
  }

  lemma {:induction false} GoneStaysGone(c: Clients, ops: seq<Op>, fd: int, j: nat)
    requires fd !in c.lastSeen && Silent(ops, fd) && j < |Closings(c, ops)|
    ensures fd !in Closings(c, ops)[j]
    decreases |ops|
  {
    var op, rest := ops[0], ops[1..];
    assert Silent(rest, fd) && fd !in After(c, op).lastSeen;
    if !op.Close? {
      GoneStaysGone(After(c, op), rest, fd, j);
    } else if j > 0 {
      GoneStaysGone(After(c, op), rest, fd, j - 1);
    }
  }

  lemma FirstAfterLater(rounds: seq<(bool, int)>, head: (bool, int), due: int, j: nat)
    requires j < |rounds| && !(head.0 && due <= head.1)
    ensures FirstAfter([head] + rounds, due, j + 1) <==> FirstAfter(rounds, due, j)
  {
    var all := [head] + rounds;
    assert forall i | 0 <= i < |rounds| :: all[i + 1] == rounds[i];
    if FirstAfter(rounds, due, j) {
      assert forall i | 0 < i < j + 1 :: all[i] == rounds[i - 1];
    }
  }

  /** A client that is silent from some moment on is closed once: by the first round with an alarm
      that ends 15 seconds (three time slots) or more after it was last heard of. */
  lemma {:induction false} SilentClientIsClosedOnce(c: Clients, ops: seq<Op>, fd: int, j: nat)
    requires fd in c.lastSeen && Silent(ops, fd) && j < |Closings(c, ops)| == |Rounds(c.timeout, ops)|
    ensures fd in Closings(c, ops)[j] <==> FirstAfter(Rounds(c.timeout, ops), c.lastSeen[fd] + 15, j)
    decreases |ops|
  {
    var op, rest := ops[0], ops[1..];
    var d := After(c, op);
    assert Silent(rest, fd);
    AsManyRounds(d, rest);
    if !op.Close? {
      SilentClientIsClosedOnce(d, rest, fd, j);
    } else if j > 0 {
      var head, later, due := (c.timeout, op.now), Rounds(d.timeout, rest), c.lastSeen[fd] + 15;
      assert Rounds(c.timeout, ops) == [head] + later;
      if fd in Idle(c, op.now) {
        GoneStaysGone(d, rest, fd, j - 1);
        assert ([head] + later)[0] == head;
      } else {
        SilentClientIsClosedOnce(d, rest, fd, j - 1);
        FirstAfterLater(later, head, due, j - 1);
      }
    }
  }

  // ---------- The server ----------

  class Server {
    const list: SortTimerList
    var users: map<int, UtilTimer>   // users[fd].timer; entries of closed clients stay behind
    var timeout: bool
    ghost var lastSeen: map<int, int>  // the open clients, and when each was last accepted or received from

    ghost predicate Valid()
      reads this, list, list.timeList
    {
      list.Valid() && OneTimerEach(list.timeList, users, lastSeen)
    }

    /** The open clients, as the reference has them. */
    ghost function Open(): Clients
      reads this
    {
      Clients(lastSeen, timeout)
    }

    ghost function Timers(): set<UtilTimer>
      reads this, list
    {
      set t | t in list.timeList
    }

    constructor ()
      ensures Valid() && list.timeList == [] && lastSeen == map[] && !timeout && fresh(list)
    {
      list := new SortTimerList();
      users, timeout, lastSeen := map[], false, map[];
    }

    /** A new connection: the kernel hands out a descriptor that is not in use. */
    method Accept(cfd: int, now: int)
      requires Valid() && cfd !in lastSeen
      modifies this`users, this`lastSeen, list
      ensures Valid() && lastSeen == old(lastSeen)[cfd := now]
      ensures fresh(Timers() - old(Timers()))
    {
      var timer := new UtilTimer(cfd, now + 3 * TIMESLOT);
      users := users[cfd := timer];
      lastSeen := lastSeen[cfd := now];
      list.AddTimer(timer);
    }

    /** An event on a client: its timer is pushed back, deleted, or left alone. */
    method Event(fd: int, received: Received, now: int) returns (closed: bool)
      requires Valid() && fd in lastSeen
      modifies this`lastSeen, list, users[fd]
      ensures Valid() && (closed <==> received.Eof? || received.Failed?)
      ensures Timers() <= old(Timers())
      ensures lastSeen == if closed then old(lastSeen) - {fd}
                          else if received.Data? then old(lastSeen)[fd := now] else old(lastSeen)
    {
      closed := false;
      var timer := users[fd];
      match received {
        case Failed =>
          closed := true;
          Forget(fd);
        case Again =>
        case Eof =>
          closed := true;
          Forget(fd);
        case Data =>
          timer.expire := now + 3 * TIMESLOT;
          lastSeen := lastSeen[fd := now];
          list.AdjustTimer(timer);
      }
    }

    /** time_callback on the client, then del_timer */
    method Forget(fd: int)
      requires Valid() && fd in lastSeen
      modifies this`lastSeen, list
      ensures Valid() && lastSeen == old(lastSeen) - {fd}
      ensures Timers() <= old(Timers())
    {
      RemovedMembers(list.timeList, users[fd]);
      list.DelTimer(users[fd]);
      lastSeen := lastSeen - {fd};
    }

    /** The alarm signal only leaves a mark. */
    method Alarm()
      requires Valid()
      modifies this`timeout
      ensures Valid() && timeout
    {
      timeout := true;
    }

    /** The end of a round of events: when the alarm rang, a tick closes exactly the clients that
        were last heard of three slots ago or earlier, each once. */
    method EndOfRound(now: int) returns (closed: seq<int>)
      requires Valid()
      modifies this`timeout, this`lastSeen, list
      ensures Valid() && !timeout && Distinct(closed)
      ensures Timers() <= old(Timers())
      ensures forall fd :: fd in closed
                           <==> old(timeout) && fd in old(lastSeen) && old(lastSeen)[fd] + 3 * TIMESLOT <= now
      ensures lastSeen == map fd | fd in old(lastSeen) && fd !in closed :: old(lastSeen)[fd]
    {
      closed := [];
      if timeout {
        closed := CloseIdle(now);
        timeout := false;
      }
    }

    /** tick: the list serves the due timers. */
    method ServeTimers(now: int) returns (fired: seq<UtilTimer>)
      requires Valid()
      modifies list
      ensures list.Valid() && Distinct(fired) && OneTimerEach(old(list.timeList), users, lastSeen)
      ensures forall t :: t in fired <==> t in old(list.timeList) && t.expire <= now
      ensures forall t :: t in list.timeList <==> t in old(list.timeList) && now < t.expire
    {
      fired := list.Tick(now);
    }

    /** ... and its callbacks close the clients. */
    method CloseIdle(now: int) returns (closed: seq<int>)
      requires Valid()
      modifies this`lastSeen, list
      ensures Valid() && Distinct(closed)
      ensures Timers() <= old(Timers())
      ensures forall fd :: fd in closed <==> fd in old(lastSeen) && old(lastSeen)[fd] + 3 * TIMESLOT <= now
      ensures lastSeen == map fd | fd in old(lastSeen) && fd !in closed :: old(lastSeen)[fd]
    {
      ghost var timers, was := list.timeList, lastSeen;
      var fired := ServeTimers(now);
      closed := Socks(fired);
      ghost var left := map fd | fd in was && fd !in closed :: was[fd];
      TickClosesIdle(timers, users, was, fired, list.timeList, left, now);
      lastSeen := left;
    }
  }

  // ---------- Runs of the server ----------

  /** The same clients, each once. */
  ghost predicate Exactly(closed: seq<int>, idle: set<int>) {
    Distinct(closed) && forall fd :: fd in closed <==> fd in idle
  }

  lemma WithoutIdle(c: Clients, idle: set<int>, closed: seq<int>)
    requires Exactly(closed, idle)
    ensures (map fd | fd in c.lastSeen && fd !in closed :: c.lastSeen[fd]) == c.lastSeen - idle
  {
    var left, kept := c.lastSeen - idle, map fd | fd in c.lastSeen && fd !in closed :: c.lastSeen[fd];
    forall fd ensures fd in kept <==> fd in left {
      assert fd in closed <==> fd in idle;
      assert fd in left <==> fd in c.lastSeen.Keys - idle;
    }
    assert kept == left;
  }

  /** One operation on the server does to its clients what the reference says. */
  method Apply(server: Server, op: Op) returns (closed: seq<int>)
    requires server.Valid() && Legal(server.Open(), op)
    modifies server, server.list, server.Timers()
    ensures server.Valid() && fresh(server.Timers() - old(server.Timers()))
    ensures server.Open() == After(old(server.Open()), op)
    ensures op.Close? ==> Exactly(closed, Idle(old(server.Open()), op.now))
  {
    closed := [];
    match op
    case Connect(cfd, at) => server.Accept(cfd, at);
    case Hear(fd, received, at) => var _ := server.Event(fd, received, at);
    case Ring => server.Alarm();
    case Close(now) =>
      ghost var was := server.Open();
      closed := server.EndOfRound(now);
      WithoutIdle(was, Idle(was, now), closed);
  }

  /** Over every legal run of connections, events, alarms and ends of rounds, the server closes exactly
      the idle clients at the end of each round. */
  method Run(ops: seq<Op>) returns (trace: seq<seq<int>>)
    requires LegalRun(Clients(map[], false), ops)
    ensures |trace| == |Closings(Clients(map[], false), ops)|
    ensures forall j | 0 <= j < |trace| :: Exactly(trace[j], Closings(Clients(map[], false), ops)[j])
  {
    var server := new Server();
    trace := [];
    ghost var all := Closings(server.Open(), ops);
    var i := 0;
    assert ops[0..] == ops;
    while i < |ops|
      invariant 0 <= i <= |ops| && server.Valid()
      invariant fresh(server) && fresh(server.list) && fresh(server.Timers())
      invariant LegalRun(server.Open(), ops[i..])
      invariant |trace| <= |all| && all[|trace|..] == Closings(server.Open(), ops[i..])
      invariant forall j | 0 <= j < |trace| :: Exactly(trace[j], all[j])
    {
      assert ops[i..][1..] == ops[i + 1..];
      var closed := Apply(server, ops[i]);
      if ops[i].Close? {
        trace := trace + [closed];
      }
      i := i + 1;
    }
  }
}
