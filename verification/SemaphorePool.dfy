/** The thread pool with a semaphore, a mutex and a bounded queue, as a system of atomic
    steps: one program counter a thread, any number of producers and workers, any interleaving. */
module SemaphorePool {
  import opened Tally

  datatype Request = Null | Task(id: int)

  /** Where a thread stands; a thread inside append is a producer, one inside run a worker. */
  datatype Pc =
    | Outside                    // not inside append
    | Entering(req: Request)     // append: about to lock
    | Checking(req: Request)     // locked, about to compare the size
    | Refusing(req: Request)     // locked, too many requests: about to unlock and return false
    | Pushing(req: Request)      // locked, about to push_back
    | Pushed                     // locked, about to unlock
    | Posting                    // about to post
    | Top                        // run: about to test the stop flag
    | Exited                     // run returned, the flag was set
    | Waiting                    // about to wait on the semaphore
    | Woken                      // wait returned, about to lock
    | Testing                    // locked, about to test for an empty queue
    | Leaving                    // locked, found it empty: about to unlock
    | Popping                    // locked, about to take the front
    | Popped(req: Request)       // locked, about to unlock
    | Working(req: Request)      // about to process the request

  datatype Lock = Free | Held(thread: nat)

  datatype Taken = Taken(worker: nat, req: Request)

  /** `accepted`, `popped` and `finished` log what was pushed, taken and processed so far. */
  datatype State = State(queue: seq<Request>, sem: nat, lock: Lock, pcs: seq<Pc>, stop: bool, maxRequest: nat,
                         accepted: seq<Request>, popped: seq<Taken>, finished: seq<Taken>)

  predicate Locked(pc: Pc) {
    pc.Checking? || pc.Refusing? || pc.Pushing? || pc.Pushed? || pc.Testing? || pc.Leaving? || pc.Popping? || pc.Popped?
  }

  predicate Worker(pc: Pc) {
    || pc.Top? || pc.Exited? || pc.Waiting? || pc.Woken? || pc.Testing?
    || pc.Leaving? || pc.Popping? || pc.Popped? || pc.Working?
  }

  /** Taking the mutex and waiting on the semaphore block; nothing else does. */
  predicate Enabled(s: State, t: nat)
    requires t < |s.pcs|
  {
    match s.pcs[t]
    case Entering(_) => s.lock.Free?
    case Woken => s.lock.Free?
    case Waiting => s.sem > 0
    case Exited => false
    case _ => true
  }

  /** The next atomic step of thread `t`; `req` is what a producer outside calls append with. */
  function After(s: State, t: nat, req: Request): (r: State)
    requires t < |s.pcs| && Enabled(s, t) && (s.pcs[t].Popping? ==> s.queue != [])
    ensures |r.pcs| == |s.pcs| && r.maxRequest == s.maxRequest
  {
    match s.pcs[t]
    case Outside => s.(pcs := s.pcs[t := Entering(req)])
    case Entering(r) => s.(lock := Held(t), pcs := s.pcs[t := Checking(r)])
    case Checking(r) => s.(pcs := s.pcs[t := if |s.queue| > s.maxRequest then Refusing(r) else Pushing(r)])
    case Refusing(r) => s.(lock := Free, pcs := s.pcs[t := Outside])
    case Pushing(r) => s.(queue := s.queue + [r], accepted := s.accepted + [r], pcs := s.pcs[t := Pushed])
    case Pushed => s.(lock := Free, pcs := s.pcs[t := Posting])
    case Posting => s.(sem := s.sem + 1, pcs := s.pcs[t := Outside])
    case Top => s.(pcs := s.pcs[t := if s.stop then Exited else Waiting])
    case Exited => s
    case Waiting => s.(sem := s.sem - 1, pcs := s.pcs[t := Woken])
    case Woken => s.(lock := Held(t), pcs := s.pcs[t := Testing])
    case Testing => s.(pcs := s.pcs[t := if s.queue == [] then Leaving else Popping])
    case Leaving => s.(lock := Free, pcs := s.pcs[t := Top])
    case Popping =>
      s.(queue := s.queue[1..], popped := s.popped + [Taken(t, s.queue[0])], pcs := s.pcs[t := Popped(s.queue[0])])
    case Popped(r) => s.(lock := Free, pcs := s.pcs[t := Working(r)])
    case Working(r) => s.(finished := s.finished + [Taken(t, r)], pcs := s.pcs[t := Top])
  }

  /** front() is called on an empty list. */
  ghost predicate Broken(s: State) {
    exists t: nat :: t < |s.pcs| && s.pcs[t].Popping? && s.queue == []
  }

  ghost predicate Init(s: State) {
    && s.queue == [] && s.sem == 0 && s.lock.Free? && !s.stop && s.maxRequest > 0
    && (forall t | 0 <= t < |s.pcs| :: s.pcs[t].Outside? || s.pcs[t].Top?)
    && s.accepted == [] && s.popped == [] && s.finished == []
  }

  ghost predicate StepBy(s: State, s': State, t: nat, req: Request) {
    && t < |s.pcs| && Enabled(s, t) && (s.pcs[t].Popping? ==> s.queue != [])
    && s' == After(s, t, req)
  }

  /** The flag is set from outside the pool's threads, at any time. */
  ghost predicate Halt(s: State, s': State) {
    s' == s.(stop := true)
  }

  ghost predicate Step(s: State, s': State) {
    Halt(s, s') || exists t: nat, req :: StepBy(s, s', t, req)
  }

  ghost predicate Run(states: seq<State>) {
    && states != [] && Init(states[0])
    && forall i | 0 <= i < |states| - 1 :: Step(states[i], states[i + 1])
  }

  // ---------- The invariant ----------

  /** Threads that owe or hold a token: pushed but not posted, or past wait and not yet popped. */
  function Token(pc: Pc): nat {
    if pc.Pushed? || pc.Posting? || pc.Woken? || pc.Testing? || pc.Popping? then 1 else 0
  }

  function Requests(log: seq<Taken>): (r: seq<Request>)
    ensures |r| == |log|
  {
    seq(|log|, i requires 0 <= i < |log| => log[i].req)
  }

  /** Whether thread `t`, standing at `pc`, has `x` in hand. */
  function Hand(pc: Pc, t: nat, x: Taken): nat {
    if x.worker == t && (pc == Popped(x.req) || pc == Working(x.req)) then 1 else 0
  }

  function InHand(s: State, x: Taken): nat {
    if x.worker < |s.pcs| then Hand(s.pcs[x.worker], x.worker, x) else 0
  }

  ghost predicate OneHolder(s: State) {
    && (s.lock.Held? ==> s.lock.thread < |s.pcs|)
    && forall t | 0 <= t < |s.pcs| :: Locked(s.pcs[t]) <==> s.lock == Held(t)
  }

  /** Queue length = semaphore value + tokens in the hands of threads. */
  ghost predicate TokensBalance(s: State) {
    |s.queue| == s.sem + Total(s.pcs, Token)
  }

  /** Accepted requests are popped in their order: the log of accepted requests is the log of
      popped ones followed by the queue. */
  ghost predicate Conserved(s: State) {
    s.accepted == Requests(s.popped) + s.queue
  }

  /** What a worker popped it has either finished or still in hand. */
  ghost predicate Worked(s: State) {
    forall x :: multiset(s.popped)[x] == multiset(s.finished)[x] + InHand(s, x)
  }

  ghost predicate Bounded(s: State) {
    && |s.queue| <= s.maxRequest + 1
    && (forall t | 0 <= t < |s.pcs| :: s.pcs[t].Pushing? ==> |s.queue| <= s.maxRequest)
    && (forall t | 0 <= t < |s.pcs| :: s.pcs[t].Refusing? ==> |s.queue| == s.maxRequest + 1)
  }

  /** The branch for an empty queue is never taken. */
  ghost predicate NeverEmpty(s: State) {
    forall t | 0 <= t < |s.pcs| :: !s.pcs[t].Leaving?
  }

  /** No worker leaves before the flag is set. */
  ghost predicate NobodyLeftEarly(s: State) {
    forall t | 0 <= t < |s.pcs| :: s.pcs[t].Exited? ==> s.stop
  }

  ghost predicate Inv(s: State) {
    && OneHolder(s) && TokensBalance(s) && Conserved(s) && Worked(s) && Bounded(s) && NeverEmpty(s)
    && NobodyLeftEarly(s)
  }

  lemma InitInv(s: State)
    requires Init(s)
    ensures Inv(s)
  {
    TotalZero(s.pcs, Token);
  }

  /** A worker that is about to test or pop finds the queue nonempty. */
  lemma TokenMeansNonempty(s: State, t: nat)
    requires TokensBalance(s) && t < |s.pcs| && Token(s.pcs[t]) == 1
    ensures s.queue != []
  {
    TotalAtLeast(s.pcs, Token, t);
  }

  /** Taking the lock, releasing it, or neither. */
  lemma StepKeepsHolder(s: State, s': State, t: nat, req: Request)
    requires OneHolder(s) && StepBy(s, s', t, req)
    ensures OneHolder(s')
  {
    assert s'.pcs == s.pcs[t := s'.pcs[t]];
    assert s'.lock == if Locked(s'.pcs[t]) then Held(t) else if Locked(s.pcs[t]) then Free else s.lock;
  }

  lemma StepKeepsBound(s: State, s': State, t: nat, req: Request)
    requires OneHolder(s) && Bounded(s) && StepBy(s, s', t, req)
    ensures Bounded(s')
  {
    assert s'.pcs == s.pcs[t := s'.pcs[t]];
    assert |s'.queue| == |s.queue| + (if s.pcs[t].Pushing? then 1 else 0) - (if s.pcs[t].Popping? then 1 else 0);
    forall u | 0 <= u < |s.pcs| && u != t && Locked(s.pcs[u]) ensures s'.queue == s.queue {
      assert s.lock == Held(u) && !Locked(s.pcs[t]);
    }
  }

  lemma StepNeverEmpty(s: State, s': State, t: nat, req: Request)
    requires TokensBalance(s) && NeverEmpty(s) && StepBy(s, s', t, req)
    ensures NeverEmpty(s')
  {
    if s.pcs[t].Testing? {
      TokenMeansNonempty(s, t);
    }
  }

  /** What a step does to the three parts of the token account. */
  lemma TokenMoves(s: State, s': State, t: nat, req: Request)
    requires StepBy(s, s', t, req) && !s'.pcs[t].Leaving? && !s.pcs[t].Leaving?
    ensures s'.pcs == s.pcs[t := s'.pcs[t]]
    ensures |s'.queue| - s'.sem - Token(s'.pcs[t]) == |s.queue| - s.sem - Token(s.pcs[t])
  {
  }

  lemma StepKeepsTokens(s: State, s': State, t: nat, req: Request)
    requires TokensBalance(s) && NeverEmpty(s) && StepBy(s, s', t, req)
    ensures TokensBalance(s')
  {
    StepNeverEmpty(s, s', t, req);
    TokenMoves(s, s', t, req);
    TotalUpdate(s.pcs, Token, t, s'.pcs[t]);
  }

  lemma StepConserves(s: State, s': State, t: nat, req: Request)
    requires Inv(s) && StepBy(s, s', t, req)
    ensures Conserved(s')
  {
    if s.pcs[t].Popping? {
      assert Requests(s'.popped) == Requests(s.popped) + [s.queue[0]];
      assert s.queue == [s.queue[0]] + s.queue[1..];
    }
  }

  lemma Logged(log: seq<Taken>, y: Taken, x: Taken)
    ensures multiset(log + [y])[x] == multiset(log)[x] + if x == y then 1 else 0
  {
  }

  /** How a step moves a request through the hand of its thread. */
  lemma HandMoves(s: State, s': State, t: nat, req: Request, x: Taken)
    requires StepBy(s, s', t, req)
    ensures s'.popped == if s.pcs[t].Popping? then s.popped + [Taken(t, s.queue[0])] else s.popped
    ensures s'.finished == if s.pcs[t].Working? then s.finished + [Taken(t, s.pcs[t].req)] else s.finished
    ensures s'.pcs == s.pcs[t := s'.pcs[t]]
    ensures Hand(s'.pcs[t], t, x) == (if s.pcs[t].Popping? && x == Taken(t, s.queue[0]) then 1 else 0)
                                     + (if s.pcs[t].Popped? then Hand(s.pcs[t], t, x) else 0)
  {
  }

  lemma StepKeepsWork(s: State, s': State, t: nat, req: Request, x: Taken)
    requires Worked(s) && StepBy(s, s', t, req)
    ensures multiset(s'.popped)[x] == multiset(s'.finished)[x] + InHand(s', x)
  {
    HandMoves(s, s', t, req, x);
    var pc, pc' := s.pcs[t], s'.pcs[t];
    assert multiset(s.popped)[x] == multiset(s.finished)[x] + InHand(s, x);
    assert InHand(s', x) + Hand(pc, t, x) == InHand(s, x) + Hand(pc', t, x);
    if pc.Popping? {
      Logged(s.popped, Taken(t, s.queue[0]), x);
    } else if pc.Working? {
      Logged(s.finished, Taken(t, pc.req), x);
    }
  }

  /** A worker leaves at the top of its loop, exactly when the flag is set. */
  lemma LeavesIffStopped(s: State, s': State, t: nat, req: Request)
    requires StepBy(s, s', t, req) && !s.pcs[t].Exited?
    ensures s'.pcs[t].Exited? <==> s.pcs[t].Top? && s.stop
    ensures s'.stop == s.stop
  {
  }

  lemma StepLeavesNobodyEarly(s: State, s': State, t: nat, req: Request)
    requires NobodyLeftEarly(s) && StepBy(s, s', t, req)
    ensures NobodyLeftEarly(s')
  {
    LeavesIffStopped(s, s', t, req);
    assert s'.pcs == s.pcs[t := s'.pcs[t]];
  }

  lemma StepKeepsInv(s: State, s': State, t: nat, req: Request)
    requires Inv(s) && StepBy(s, s', t, req)
    ensures Inv(s')
  {
    StepKeepsHolder(s, s', t, req);
    StepKeepsBound(s, s', t, req);
    StepNeverEmpty(s, s', t, req);
    StepLeavesNobodyEarly(s, s', t, req);
    StepKeepsTokens(s, s', t, req);
    StepConserves(s, s', t, req);
    forall x ensures multiset(s'.popped)[x] == multiset(s'.finished)[x] + InHand(s', x) {
      StepKeepsWork(s, s', t, req, x);
    }
  }

  lemma HaltKeepsInv(s: State, s': State)
    requires Inv(s) && Halt(s, s')
    ensures Inv(s')
  {
    forall x ensures multiset(s'.popped)[x] == multiset(s'.finished)[x] + InHand(s', x) {
      assert InHand(s', x) == InHand(s, x);
    }
  }

  // ---------- What holds in every run ----------

  /** Token accounting, FIFO conservation, the size bound and mutual exclusion hold in every
      state of every run, the empty-queue branch is never reached and front() never fails. */
  lemma {:induction false} RunsAreSafe(states: seq<State>, i: nat)
    requires Run(states) && i < |states|
    ensures Inv(states[i]) && !Broken(states[i])
    decreases i
  {
    if i == 0 {
      InitInv(states[0]);
    } else {
      RunsAreSafe(states, i - 1);
      assert Step(states[i - 1], states[i - 1 + 1]);
      if Halt(states[i - 1], states[i]) {
        HaltKeepsInv(states[i - 1], states[i]);
      } else {
        var t: nat, req :| StepBy(states[i - 1], states[i], t, req);
        StepKeepsInv(states[i - 1], states[i], t, req);
      }
    }
    if t: nat :| t < |states[i].pcs| && states[i].pcs[t].Popping? && states[i].queue == [] {
      TokenMeansNonempty(states[i], t);
    }
  }

  /** append refuses exactly when the queue is one longer than its limit. */
  lemma RefusesIffFull(s: State, t: nat, req: Request)
    requires Inv(s) && t < |s.pcs| && s.pcs[t].Checking?
    ensures After(s, t, req).pcs[t].Refusing? <==> |s.queue| == s.maxRequest + 1
  {
  }

  /** No stall: while a request is queued and some worker has not exited, some thread inside the pool
      (not merely a new call of append) can take a step. */
  lemma QueuedMeansEnabled(s: State, w: nat) returns (t: nat)
    requires Inv(s) && s.queue != [] && w < |s.pcs| && Worker(s.pcs[w]) && !s.pcs[w].Exited?
    ensures t < |s.pcs| && !s.pcs[t].Outside? && Enabled(s, t)
  {
    if s.lock.Held? {
      t := s.lock.thread;
      assert Locked(s.pcs[t]);
    } else if !s.pcs[w].Waiting? || s.sem > 0 {
      t := w;
    } else {
      t := TotalPositive(s.pcs, Token);
    }
  }

  // ---------- Every accepted request is finished ----------

  /** A step inside the pool: of a worker, or of a call of append that has begun. */
  ghost predicate InsideStep(s: State, s': State) {
    exists t: nat, req :: StepBy(s, s', t, req) && !s.pcs[t].Outside?
  }

  /** How many steps a thread can take before it waits; a request still to be queued counts for ten. */
  function Rank(pc: Pc): nat {
    match pc
    case Outside => 0
    case Entering(_) => 15
    case Checking(_) => 14
    case Refusing(_) => 1
    case Pushing(_) => 13
    case Pushed => 2
    case Posting => 1
    case Top => 7
    case Exited => 0
    case Waiting => 6
    case Woken => 5
    case Testing => 4
    case Leaving => 0
    case Popping => 3
    case Popped(_) => 9
    case Working(_) => 8
  }

  function Pending(s: State): nat {
    10 * |s.queue| + Total(s.pcs, Rank)
  }

  lemma RankMoves(s: State, s': State, t: nat, req: Request)
    requires StepBy(s, s', t, req) && !s.pcs[t].Outside? && !s.pcs[t].Leaving? && !s'.pcs[t].Leaving?
    ensures s'.pcs == s.pcs[t := s'.pcs[t]] && s.accepted <= s'.accepted && s'.stop == s.stop
    ensures 10 * |s'.queue| + Rank(s'.pcs[t]) < 10 * |s.queue| + Rank(s.pcs[t])
  {
  }

  /** Without new calls of append the pool comes to rest, whatever the schedule. */
  lemma InsideStepShrinks(s: State, s': State)
    requires Inv(s) && InsideStep(s, s')
    ensures Inv(s') && Pending(s') < Pending(s) && s.accepted <= s'.accepted && s'.stop == s.stop
  {
    var t: nat, req :| StepBy(s, s', t, req) && !s.pcs[t].Outside?;
    StepKeepsInv(s, s', t, req);
    RankMoves(s, s', t, req);
    TotalUpdate(s.pcs, Rank, t, s'.pcs[t]);
  }

  lemma WorkersStay(s: State, s': State, w: nat)
    requires InsideStep(s, s') && w < |s.pcs| && Worker(s.pcs[w])
    ensures |s'.pcs| == |s.pcs| && Worker(s'.pcs[w])
  {
  }

  /** All that was accepted has been popped, in order, and what was popped is finished. */
  ghost predicate AllFinished(s: State) {
    s.queue == [] && s.accepted == Requests(s.popped) && multiset(s.finished) == multiset(s.popped)
  }

  /** Whoever holds the mutex can go on. */
  lemma HolderCanMove(s: State)
    requires OneHolder(s)
    ensures s.lock.Held? ==> var t := s.lock.thread; t < |s.pcs| && !s.pcs[t].Outside? && Enabled(s, t)
  {
    assert s.lock.Held? ==> Locked(s.pcs[s.lock.thread]);
  }

  /** ... and at rest every call has returned, every worker waits, and every accepted request is finished,
      unless the flag has sent the workers home. */
  lemma RestMeansFinished(s: State, w: nat)
    requires Inv(s) && !s.stop && w < |s.pcs| && Worker(s.pcs[w])
    requires forall t: nat | t < |s.pcs| && !s.pcs[t].Outside? :: !Enabled(s, t)
    ensures AllFinished(s)
    ensures forall t: nat | t < |s.pcs| :: s.pcs[t].Outside? || s.pcs[t].Waiting?
  {
    HolderCanMove(s);
    if s.queue != [] {
      var t := QueuedMeansEnabled(s, w);
    }
    forall x ensures multiset(s.finished)[x] == multiset(s.popped)[x] {
      assert x.worker < |s.pcs| ==> !s.pcs[x.worker].Popped? && !s.pcs[x.worker].Working?;
      assert InHand(s, x) == 0;
    }
  }

  ghost predicate InsideRun(states: seq<State>) {
    states != [] && forall i | 0 <= i < |states| - 1 :: InsideStep(states[i], states[i + 1])
  }

  /** No run without new calls has more steps than this. */
  lemma {:induction false} InsideRunsAreShort(states: seq<State>, i: nat)
    requires InsideRun(states) && Inv(states[0]) && i < |states|
    ensures Inv(states[i]) && i + Pending(states[i]) <= Pending(states[0])
    ensures states[0].accepted <= states[i].accepted && states[i].stop == states[0].stop
    decreases i
  {
    if i > 0 {
      InsideRunsAreShort(states, i - 1);
      assert InsideStep(states[i - 1], states[i - 1 + 1]);
      InsideStepShrinks(states[i - 1], states[i]);
    }
  }

  lemma LongerRun(s: State, rest: seq<State>)
    requires InsideRun(rest) && InsideStep(s, rest[0])
    ensures InsideRun([s] + rest)
  {
    var states := [s] + rest;
    forall i | 0 <= i < |states| - 1 ensures InsideStep(states[i], states[i + 1]) {
      assert i > 0 ==> InsideStep(rest[i - 1], rest[i - 1 + 1]);
    }
  }

  /** While the flag is unset and there is a worker, everything that is queued or on its way can be
      brought to its end, and is by any schedule that runs on for as long as it can. */
  lemma {:induction false} AcceptedGetsFinished(s: State, w: nat) returns (states: seq<State>)
    requires Inv(s) && !s.stop && w < |s.pcs| && Worker(s.pcs[w])
    ensures InsideRun(states) && states[0] == s
    ensures var e := states[|states| - 1]; AllFinished(e) && s.accepted <= e.accepted
    decreases Pending(s)
  {
    if t: nat :| t < |s.pcs| && !s.pcs[t].Outside? && Enabled(s, t) {
      if s.pcs[t].Popping? {
        TokenMeansNonempty(s, t);
      }
      var s' := After(s, t, Null);
      assert StepBy(s, s', t, Null);
      InsideStepShrinks(s, s');
      WorkersStay(s, s', w);
      var rest := AcceptedGetsFinished(s', w);
      states := [s] + rest;
      LongerRun(s, rest);
    } else {
      RestMeansFinished(s, w);
      states := [s];
    }
  }
}
