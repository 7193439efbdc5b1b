/** Who may touch a connection: the event loop, the thread pool's queue and its workers hand
    connections around, one-shot epoll arms them. The pool is the step system of SemaphorePool:
    thread 0 is the event loop calling append, all other threads are its workers. */
module ConnectionOwnership {
  import opened Lists
  import opened Tally
  import SemaphorePool

  datatype Kind = HangUp | Readable | Writable

  /** An epoll event on the listening socket or on a connection. */
  datatype Event = Incoming | On(fd: int, kind: Kind)

  /** What the event loop is doing: between events, at an event, or inside append. */
  datatype MainPc = Idle | At(fd: int, kind: Kind) | Appending(fd: int)

  /** `armed`: registered one-shot and not yet delivered; `batch`: delivered by the last
      epoll_wait and not yet handled; `dropped`: refused by append and not armed again. */
  datatype State = State(open: set<int>, armed: set<int>, batch: seq<Event>, main: MainPc, dropped: set<int>,
                         pool: SemaphorePool.State)

  // ---------- The steps ----------

  function EventsOn(batch: seq<Event>, fd: int): nat {
    Total(batch, On1(fd))
  }

  function On1(fd: int): Event -> nat {
    (e: Event) => if e.On? && e.fd == fd then 1 else 0
  }

  /** epoll_wait returns: at most one event a connection, only armed ones, and that disarms them. */
  ghost predicate Poll(s: State, s': State) {
    && s.main.Idle? && s.batch == []
    && s' == s.(batch := s'.batch, armed := set fd | fd in s.armed && EventsOn(s'.batch, fd) == 0)
    && (forall fd :: EventsOn(s'.batch, fd) <= 1)
    && (forall fd | EventsOn(s'.batch, fd) > 0 :: fd in s.armed)
  }

  /** The next event is a new connection: accept fails or the server is full, or a descriptor
      that is not in use is initialised and armed. */
  ghost predicate Accept(s: State, s': State, cfd: int) {
    && s.main.Idle? && s.batch != [] && s.batch[0].Incoming?
    && (s' == s.(batch := s.batch[1..])
        || (cfd !in s.open && s' == s.(batch := s.batch[1..], open := s.open + {cfd}, armed := s.armed + {cfd})))
  }

  ghost predicate Take(s: State, s': State) {
    && s.main.Idle? && s.batch != [] && s.batch[0].On?
    && s' == s.(batch := s.batch[1..], main := At(s.batch[0].fd, s.batch[0].kind))
  }

  /** close_conn: on a hang-up, after a failed read, or after a write that says so. A finished
      write without keep-alive arms the connection again just before closing it. */
  ghost predicate Close(s: State, s': State) {
    && s.main.At?
    && s' == s.(main := Idle, open := s.open - {s.main.fd}, armed := s.armed - {s.main.fd})
  }

  /** write: nothing to send, no room, or all sent and kept alive; each time armed again. */
  ghost predicate Rearm(s: State, s': State) {
    && s.main.At? && s.main.kind.Writable?
    && s' == s.(main := Idle, armed := s.armed + {s.main.fd})
  }

  /** read succeeded: the event loop calls append with the connection. */
  ghost predicate Submit(s: State, s': State) {
    && s.main.At? && s.main.kind.Readable?
    && SemaphorePool.StepBy(s.pool, s'.pool, 0, SemaphorePool.Task(s.main.fd))
    && s' == s.(main := Appending(s.main.fd), pool := s'.pool)
  }

  /** A step of append in the event loop; it ends with true, or with false and the connection dropped. */
  ghost predicate Append(s: State, s': State, req: SemaphorePool.Request) {
    && s.main.Appending? && SemaphorePool.StepBy(s.pool, s'.pool, 0, req)
    && s' == s.(pool := s'.pool,
                main := if s'.pool.pcs[0].Outside? then Idle else s.main,
                dropped := if s.pool.pcs[0].Refusing? then s.dropped + {s.main.fd} else s.dropped)
  }

  /** A step of a worker; when it has processed a connection (with process_write succeeding),
      its last act is to arm that connection. */
  ghost predicate Work(s: State, s': State, t: nat, req: SemaphorePool.Request) {
    && 0 < t && SemaphorePool.StepBy(s.pool, s'.pool, t, req)
    && s' == s.(pool := s'.pool,
                armed := if s.pool.pcs[t].Working? && s.pool.pcs[t].req.Task? then s.armed + {s.pool.pcs[t].req.id}
                         else s.armed)
  }

  ghost predicate Step(s: State, s': State) {
    || Poll(s, s') || Take(s, s') || Close(s, s') || Rearm(s, s') || Submit(s, s')
    || (exists cfd :: Accept(s, s', cfd))
    || (exists req :: Append(s, s', req))
    || (exists t: nat, req :: Work(s, s', t, req))
  }

  ghost predicate Init(s: State) {
    && s.open == {} && s.armed == {} && s.batch == [] && s.main.Idle? && s.dropped == {}
    && SemaphorePool.Init(s.pool) && s.pool.pcs != [] && s.pool.pcs[0].Outside?
    && forall t | 0 < t < |s.pool.pcs| :: s.pool.pcs[t].Top?
  }

  ghost predicate Run(states: seq<State>) {
    && states != [] && Init(states[0])
    && forall i | 0 <= i < |states| - 1 :: Step(states[i], states[i + 1])
  }

  // ---------- The invariant ----------

  function B(b: bool): nat {
    if b then 1 else 0
  }

  /** A thread of the pool that holds the connection: append before push_back, or a worker after pop_front. */
  function InHand(pc: SemaphorePool.Pc, x: SemaphorePool.Request): nat {
    B((pc.Entering? || pc.Checking? || pc.Refusing? || pc.Pushing? || pc.Popped? || pc.Working?) && pc.req == x)
  }

  function Holds(fd: int): SemaphorePool.Pc -> nat {
    (pc: SemaphorePool.Pc) => InHand(pc, SemaphorePool.Task(fd))
  }

  function InPool(pool: SemaphorePool.State, fd: int): nat {
    multiset(pool.queue)[SemaphorePool.Task(fd)] + Total(pool.pcs, Holds(fd))
  }

  /** In how many places a connection is. */
  function Places(s: State, fd: int): nat {
    B(fd in s.armed) + EventsOn(s.batch, fd) + B(s.main.At? && s.main.fd == fd)
    + InPool(s.pool, fd) + B(fd in s.dropped)
  }

  ghost predicate SingleOwner(s: State) {
    forall fd :: Places(s, fd) == B(fd in s.open)
  }

  /** append has taken the connection over and not yet pushed it. */
  predicate Handing(pc: SemaphorePool.Pc) {
    pc.Entering? || pc.Checking? || pc.Refusing? || pc.Pushing?
  }

  /** Thread 0 runs append exactly while the event loop is in it, on the loop's connection; the others run workers. */
  ghost predicate Roles(s: State) {
    && s.pool.pcs != [] && !SemaphorePool.Worker(s.pool.pcs[0])
    && (s.main.Appending? <==> !s.pool.pcs[0].Outside?)
    && (Handing(s.pool.pcs[0]) ==> s.main.Appending? && s.pool.pcs[0].req == SemaphorePool.Task(s.main.fd))
    && forall t | 0 < t < |s.pool.pcs| :: SemaphorePool.Worker(s.pool.pcs[t])
  }

  ghost predicate Inv(s: State) {
    SingleOwner(s) && Roles(s) && SemaphorePool.Inv(s.pool)
  }

  // ---------- Pool steps hand connections on ----------

  lemma QueueCount(q: seq<SemaphorePool.Request>, r: SemaphorePool.Request, x: SemaphorePool.Request)
    ensures multiset(q + [r])[x] == multiset(q)[x] + B(x == r)
    ensures q != [] ==> multiset(q)[x] == multiset(q[1..])[x] + B(x == q[0])
  {
    assert q != [] ==> q == [q[0]] + q[1..];
  }

  /** Where a pool step moves a request: into the queue, or out of it into a thread's hand. */
  lemma QueueStep(p: SemaphorePool.State, p': SemaphorePool.State, t: nat, req: SemaphorePool.Request)
    requires SemaphorePool.StepBy(p, p', t, req)
    ensures p'.pcs == p.pcs[t := p'.pcs[t]]
    ensures p'.queue == if p.pcs[t].Pushing? then p.queue + [p.pcs[t].req]
                        else if p.pcs[t].Popping? then p.queue[1..]
                        else p.queue
  {
  }

  lemma HandStep(p: SemaphorePool.State, p': SemaphorePool.State, t: nat, req: SemaphorePool.Request,
                 x: SemaphorePool.Request)
    requires SemaphorePool.StepBy(p, p', t, req)
    ensures InHand(p'.pcs[t], x) + B(p.pcs[t].Pushing? && p.pcs[t].req == x)
            + B((p.pcs[t].Refusing? || p.pcs[t].Working?) && p.pcs[t].req == x)
         == InHand(p.pcs[t], x) + B(p.pcs[t].Outside? && req == x) + B(p.pcs[t].Popping? && p.queue[0] == x)
  {
  }

  /** A connection enters the pool when append is called with it, and leaves it when append
      refuses it or a worker has processed it. */
  lemma PoolStep(p: SemaphorePool.State, p': SemaphorePool.State, t: nat, req: SemaphorePool.Request, fd: int)
    requires SemaphorePool.StepBy(p, p', t, req)
    ensures var x := SemaphorePool.Task(fd);
            InPool(p', fd) + B((p.pcs[t].Refusing? || p.pcs[t].Working?) && p.pcs[t].req == x)
            == InPool(p, fd) + B(p.pcs[t].Outside? && req == x)
  {
    QueueStep(p, p', t, req);
    HandStep(p, p', t, req, SemaphorePool.Task(fd));
    TotalUpdate(p.pcs, Holds(fd), t, p'.pcs[t]);
    if p.pcs[t].Pushing? {
      QueueCount(p.queue, p.pcs[t].req, SemaphorePool.Task(fd));
    } else if p.pcs[t].Popping? {
      QueueCount(p.queue, p.queue[0], SemaphorePool.Task(fd));
    }
  }

  // ---------- Every step keeps the invariant ----------

  lemma PollKeeps(s: State, s': State)
    requires Inv(s) && Poll(s, s')
    ensures Inv(s')
  {
    forall fd ensures Places(s', fd) == B(fd in s'.open) {
      assert Places(s, fd) == B(fd in s.open);
    }
  }

  lemma EventKeeps(s: State, s': State)
    requires Inv(s) && (Take(s, s') || exists cfd :: Accept(s, s', cfd))
    ensures Inv(s')
  {
    forall fd ensures Places(s', fd) == B(fd in s'.open) {
      assert Places(s, fd) == B(fd in s.open);
      assert EventsOn(s.batch, fd) == On1(fd)(s.batch[0]) + EventsOn(s.batch[1..], fd);
    }
  }

  lemma MainKeeps(s: State, s': State)
    requires Inv(s) && (Close(s, s') || Rearm(s, s'))
    ensures Inv(s')
  {
    forall fd ensures Places(s', fd) == B(fd in s'.open) {
      assert Places(s, fd) == B(fd in s.open);
    }
  }

  lemma PoolKeepsRoles(p: SemaphorePool.State, p': SemaphorePool.State, t: nat, req: SemaphorePool.Request, u: nat)
    requires SemaphorePool.StepBy(p, p', t, req) && u < |p.pcs|
    ensures SemaphorePool.Worker(p'.pcs[u]) <==> SemaphorePool.Worker(p.pcs[u])
    ensures u != t ==> p'.pcs[u] == p.pcs[u]
  {
  }

  lemma PoolRoles(s: State, p': SemaphorePool.State, t: nat, req: SemaphorePool.Request)
    requires Roles(s) && SemaphorePool.StepBy(s.pool, p', t, req)
    ensures p'.pcs != [] && !SemaphorePool.Worker(p'.pcs[0])
    ensures forall u | 0 < u < |p'.pcs| :: SemaphorePool.Worker(p'.pcs[u])
    ensures t != 0 ==> p'.pcs[0] == s.pool.pcs[0]
  {
    PoolKeepsRoles(s.pool, p', t, req, 0);
    forall u | 0 < u < |p'.pcs| ensures SemaphorePool.Worker(p'.pcs[u]) {
      PoolKeepsRoles(s.pool, p', t, req, u);
    }
  }

  lemma SubmitKeeps(s: State, s': State)
    requires Inv(s) && Submit(s, s')
    ensures Inv(s')
  {
    var req := SemaphorePool.Task(s.main.fd);
    SemaphorePool.StepKeepsInv(s.pool, s'.pool, 0, req);
    PoolRoles(s, s'.pool, 0, req);
    assert s.pool.pcs[0].Outside?;
    forall fd ensures Places(s', fd) == B(fd in s'.open) {
      assert Places(s, fd) == B(fd in s.open);
      PoolStep(s.pool, s'.pool, 0, req, fd);
    }
  }

  /** The steps of append in thread 0. */
  lemma AppendStep(p: SemaphorePool.State, p': SemaphorePool.State, req: SemaphorePool.Request)
    requires SemaphorePool.StepBy(p, p', 0, req) && !SemaphorePool.Worker(p.pcs[0]) && !p.pcs[0].Outside?
    ensures Handing(p'.pcs[0]) ==> Handing(p.pcs[0]) && p'.pcs[0].req == p.pcs[0].req
    ensures p.pcs[0].Refusing? ==> p'.pcs[0].Outside?
  {
  }

  lemma AppendKeeps(s: State, s': State, req: SemaphorePool.Request)
    requires Inv(s) && Append(s, s', req)
    ensures Inv(s')
  {
    SemaphorePool.StepKeepsInv(s.pool, s'.pool, 0, req);
    PoolRoles(s, s'.pool, 0, req);
    AppendStep(s.pool, s'.pool, req);
    forall fd ensures Places(s', fd) == B(fd in s'.open) {
      assert Places(s, fd) == B(fd in s.open);
      PoolStep(s.pool, s'.pool, 0, req, fd);
      if s.pool.pcs[0].Refusing? && fd == s.main.fd {
        TotalAtLeast(s.pool.pcs, Holds(fd), 0);
      }
    }
  }

  lemma WorkKeeps(s: State, s': State, t: nat, req: SemaphorePool.Request)
    requires Inv(s) && Work(s, s', t, req)
    ensures Inv(s')
  {
    SemaphorePool.StepKeepsInv(s.pool, s'.pool, t, req);
    PoolRoles(s, s'.pool, t, req);
    assert SemaphorePool.Worker(s.pool.pcs[t]);
    forall fd ensures Places(s', fd) == B(fd in s'.open) {
      assert Places(s, fd) == B(fd in s.open);
      PoolStep(s.pool, s'.pool, t, req, fd);
      if s.pool.pcs[t] == SemaphorePool.Working(SemaphorePool.Task(fd)) {
        TotalAtLeast(s.pool.pcs, Holds(fd), t);
      }
    }
  }

  lemma StepKeepsInv(s: State, s': State)
    requires Inv(s) && Step(s, s')
    ensures Inv(s')
  {
    if Poll(s, s') {
      PollKeeps(s, s');
    } else if Take(s, s') || exists cfd :: Accept(s, s', cfd) {
      EventKeeps(s, s');
    } else if Close(s, s') || Rearm(s, s') {
      MainKeeps(s, s');
    } else if Submit(s, s') {
      SubmitKeeps(s, s');
    } else if req :| Append(s, s', req) {
      AppendKeeps(s, s', req);
    } else {
      var t: nat, req :| Work(s, s', t, req);
      WorkKeeps(s, s', t, req);
    }
  }

  lemma InitInv(s: State)
    requires Init(s)
    ensures Inv(s)
  {
    SemaphorePool.InitInv(s.pool);
    forall fd ensures Places(s, fd) == B(fd in s.open) {
      TotalZero(s.pool.pcs, Holds(fd));
    }
  }

  // ---------- What holds in every run ----------

  /** In every state of every run each open connection is in exactly one place - armed, delivered,
      held by the event loop or append, queued, in one worker, or dropped - and others are in none. */
  lemma {:induction false} EveryConnectionHasOneOwner(states: seq<State>, i: nat)
    requires Run(states) && i < |states|
    ensures Inv(states[i])
    decreases i
  {
    if i == 0 {
      InitInv(states[0]);
    } else {
      EveryConnectionHasOneOwner(states, i - 1);
      assert Step(states[i - 1], states[i - 1 + 1]);
      StepKeepsInv(states[i - 1], states[i]);
    }
  }

  /** The queue never holds a connection twice, no two workers process the same one, and a
      connection that a worker processes is neither queued, nor armed, nor with the event loop. */
  lemma OwnersExclude(s: State, t: nat, u: nat, fd: int)
    requires Inv(s) && t < u < |s.pool.pcs|
    ensures multiset(s.pool.queue)[SemaphorePool.Task(fd)] <= 1
    ensures s.pool.pcs[t] == SemaphorePool.Working(SemaphorePool.Task(fd)) ==>
              s.pool.pcs[u] != SemaphorePool.Working(SemaphorePool.Task(fd))
    ensures s.pool.pcs[u] == SemaphorePool.Working(SemaphorePool.Task(fd)) ==>
              && fd in s.open && fd !in s.armed && SemaphorePool.Task(fd) !in s.pool.queue
              && !(s.main.At? && s.main.fd == fd) && EventsOn(s.batch, fd) == 0
  {
    assert Places(s, fd) == B(fd in s.open);
    TotalOfTwo(s.pool.pcs, Holds(fd), t, u);
    assert SemaphorePool.Task(fd) in s.pool.queue <==> SemaphorePool.Task(fd) in multiset(s.pool.queue);
  }

  /** The event loop only ever closes a connection that nobody else has, so that a descriptor
      which is handed out again has left no trace. */
  lemma ClosingIsSafe(s: State, s': State)
    requires Inv(s) && Close(s, s')
    ensures Places(s', s.main.fd) == 0 && s.main.fd in s.open && s.main.fd !in s.armed
  {
    MainKeeps(s, s');
    assert Places(s, s.main.fd) == B(s.main.fd in s.open);
    assert Places(s', s.main.fd) == B(s.main.fd in s'.open);
  }

  // ---------- What can happen ----------

  lemma {:induction false} EventsOnDistinct(fds: seq<int>, kinds: seq<Kind>, fd: int)
    requires Distinct(fds) && |kinds| == |fds|
    ensures EventsOn(Delivery(fds, kinds), fd) == if fd in fds then 1 else 0
    decreases |fds|
  {
    if fds != [] {
      assert Delivery(fds, kinds)[1..] == Delivery(fds[1..], kinds[1..]);
      EventsOnDistinct(fds[1..], kinds[1..], fd);
      assert fds[0] !in fds[1..] && fds == [fds[0]] + fds[1..];
    }
  }

  function Delivery(fds: seq<int>, kinds: seq<Kind>): seq<Event>
    requires |kinds| == |fds|
  {
    seq(|fds|, i requires 0 <= i < |fds| => On(fds[i], kinds[i]))
  }

  /** epoll_wait may deliver any armed connections, with any events, and a new connection may come in. */
  lemma PollCanDeliver(s: State, fds: seq<int>, kinds: seq<Kind>) returns (s': State)
    requires s.main.Idle? && s.batch == [] && Distinct(fds) && |kinds| == |fds|
    requires forall i | 0 <= i < |fds| :: fds[i] in s.armed
    ensures Poll(s, s') && s'.batch == Delivery(fds, kinds)
    ensures forall fd :: fd in s'.armed <==> fd in s.armed && fd !in fds
  {
    var batch := Delivery(fds, kinds);
    forall fd ensures EventsOn(batch, fd) == if fd in fds then 1 else 0 {
      EventsOnDistinct(fds, kinds, fd);
    }
    s' := s.(batch := batch, armed := set fd | fd in s.armed && EventsOn(batch, fd) == 0);
  }

  /** A connection that is accepted is open and armed; one that is refused changes nothing. */
  lemma AcceptCanTake(s: State, cfd: int) returns (taken: State, refused: State)
    requires s.main.Idle? && s.batch != [] && s.batch[0].Incoming? && cfd !in s.open
    ensures Accept(s, taken, cfd) && cfd in taken.open && cfd in taken.armed
    ensures Accept(s, refused, cfd) && refused.open == s.open && refused.armed == s.armed
  {
    refused := s.(batch := s.batch[1..]);
    taken := refused.(open := s.open + {cfd}, armed := s.armed + {cfd});
  }

  // ---------- What an event is answered with ----------

  /** The steps of the event loop that answer an event. */
  ghost predicate Answer(s: State, s': State) {
    Close(s, s') || Rearm(s, s') || Submit(s, s')
  }

  /** A hang-up is answered by closing; readiness to read by handing the connection to the pool or by
      closing; readiness to write by arming it again or by closing. */
  lemma EventsAreAnsweredByKind(s: State, s1: State, s2: State)
    requires Take(s, s1) && Answer(s1, s2)
    ensures var e := s.batch[0];
            && (e.kind.HangUp? ==> Close(s1, s2))
            && (e.kind.Readable? ==> Close(s1, s2) || (Submit(s1, s2) && s2.main == Appending(e.fd)))
            && (e.kind.Writable? ==> Close(s1, s2) || (Rearm(s1, s2) && e.fd in s2.armed))
  {
  }

  /** Each of these answers is possible. */
  lemma AnswersArePossible(s: State) returns (s1: State, closed: State, other: State)
    requires Inv(s) && s.main.Idle? && s.batch != [] && s.batch[0].On?
    ensures Take(s, s1) && Close(s1, closed) && s.batch[0].fd !in closed.open
    ensures s.batch[0].kind.Readable? ==>
              && Submit(s1, other)
              && other.pool.pcs[0] == SemaphorePool.Entering(SemaphorePool.Task(s.batch[0].fd))
    ensures s.batch[0].kind.Writable? ==> Rearm(s1, other) && s.batch[0].fd in other.armed
  {
    var fd, kind := s.batch[0].fd, s.batch[0].kind;
    s1 := s.(batch := s.batch[1..], main := At(fd, kind));
    closed := s1.(main := Idle, open := s1.open - {fd}, armed := s1.armed - {fd});
    if kind.Readable? {
      var pool := SemaphorePool.After(s.pool, 0, SemaphorePool.Task(fd));
      assert SemaphorePool.StepBy(s.pool, pool, 0, SemaphorePool.Task(fd));
      other := s1.(main := Appending(fd), pool := pool);
    } else {
      other := s1.(main := Idle, armed := s1.armed + {fd});
    }
  }
}
