/** The thread pool with a mutex and a condition variable, up to and in its shutdown, as a
    system of atomic steps. Waking is as weak as POSIX allows: a signal wakes at least one
    sleeper if there is any, and sleepers may also wake by themselves. */
module ConditionPool {
  import opened Tally

  type Job = int

  datatype Pc =
    | Outside                 // not inside pool_add_worker
    | Adding(job: Job)        // about to lock
    | Pushing(job: Job)       // locked, about to push_back
    | Counting                // locked, about to increment cur_queue_size
    | Leaving                 // locked, about to unlock
    | Signalling              // about to signal
    | Locking                 // thread_routine: about to lock
    | Testing                 // locked, about to test cur_queue_size and shutdown
    | Dozing                  // locked, found no job: about to wait
    | Asleep                  // in pthread_cond_wait, the mutex released
    | Awake                   // woken, about to take the mutex again
    | Checking                // locked, out of the loop: about to test shutdown again
    | Quitting                // locked, about to unlock and exit
    | Exited                  // pthread_exit
    | Taking                  // locked, about to decrement cur_queue_size
    | Fronting                // locked, about to read front()
    | Popping(job: Job)       // locked, about to pop_front
    | Releasing(job: Job)     // locked, about to unlock
    | Running(job: Job)       // about to run the job

  datatype Lock = Free | Held(thread: nat)

  datatype Taken = Taken(worker: nat, job: Job)

  /** Whether the destructor has set shutdown, and has sent its broadcast. */
  datatype Stage = Serving | Flagged | Announced

  /** `called`, `accepted`, `popped` and `finished` log what pool_add_worker was called with, and what was
      pushed, taken and run so far. */
  datatype State = State(list: seq<Job>, curQueueSize: int, lock: Lock, pcs: seq<Pc>, stage: Stage,
                         called: seq<Job>, accepted: seq<Job>, popped: seq<Taken>, finished: seq<Taken>)

  /** The choices of the environment: the job of a new call, and whom a signal wakes. */
  datatype Choice = Choice(job: Job, woken: set<nat>)

  predicate Locked(pc: Pc) {
    || pc.Pushing? || pc.Counting? || pc.Leaving? || pc.Testing? || pc.Dozing? || pc.Checking?
    || pc.Quitting? || pc.Taking? || pc.Fronting? || pc.Popping? || pc.Releasing?
  }

  predicate Worker(pc: Pc) {
    || pc.Locking? || pc.Testing? || pc.Dozing? || pc.Asleep? || pc.Awake? || pc.Checking?
    || pc.Quitting? || pc.Taking? || pc.Fronting? || pc.Popping? || pc.Releasing? || pc.Running?
  }

  predicate Enabled(s: State, t: nat)
    requires t < |s.pcs|
  {
    match s.pcs[t]
    case Adding(_) => s.lock.Free?
    case Locking => s.lock.Free?
    case Awake => s.lock.Free?
    case Asleep => false
    case Exited => false
    case _ => true
  }

  ghost predicate Sleeping(s: State, t: nat) {
    t < |s.pcs| && s.pcs[t].Asleep?
  }

  /** A set of threads that pthread_cond_signal may wake. */
  ghost predicate MayWake(s: State, woken: set<nat>) {
    && (forall t | t in woken :: Sleeping(s, t))
    && ((exists t :: Sleeping(s, t)) ==> woken != {})
  }

  function Wake(pcs: seq<Pc>, woken: set<nat>): (r: seq<Pc>)
    ensures |r| == |pcs|
  {
    seq(|pcs|, t requires 0 <= t < |pcs| => if t in woken then Awake else pcs[t])
  }

  /** front() and pop_front() are defined on nonempty lists only. */
  predicate Defined(s: State, t: nat)
    requires t < |s.pcs|
  {
    s.pcs[t].Fronting? || s.pcs[t].Popping? ==> s.list != []
  }

  function After(s: State, t: nat, c: Choice): (r: State)
    requires t < |s.pcs| && Enabled(s, t) && Defined(s, t)
    ensures |r.pcs| == |s.pcs|
  {
    match s.pcs[t]
    case Outside => s.(called := s.called + [c.job], pcs := s.pcs[t := Adding(c.job)])
    case Adding(j) => s.(lock := Held(t), pcs := s.pcs[t := Pushing(j)])
    case Pushing(j) => s.(list := s.list + [j], accepted := s.accepted + [j], pcs := s.pcs[t := Counting])
    case Counting => s.(curQueueSize := s.curQueueSize + 1, pcs := s.pcs[t := Leaving])
    case Leaving => s.(lock := Free, pcs := s.pcs[t := Signalling])
    case Signalling => s.(pcs := Wake(s.pcs, c.woken)[t := Outside])
    case Locking => s.(lock := Held(t), pcs := s.pcs[t := Testing])
    case Testing => s.(pcs := s.pcs[t := if s.curQueueSize == 0 && s.stage.Serving? then Dozing else Checking])
    case Dozing => s.(lock := Free, pcs := s.pcs[t := Asleep])
    case Checking => s.(pcs := s.pcs[t := if s.stage.Serving? then Taking else Quitting])
    case Quitting => s.(lock := Free, pcs := s.pcs[t := Exited])
    case Exited => s
    case Asleep => s
    case Awake => s.(lock := Held(t), pcs := s.pcs[t := Testing])
    case Taking => s.(curQueueSize := s.curQueueSize - 1, pcs := s.pcs[t := Fronting])
    case Fronting => s.(pcs := s.pcs[t := Popping(s.list[0])])
    case Popping(j) => s.(list := s.list[1..], popped := s.popped + [Taken(t, j)], pcs := s.pcs[t := Releasing(j)])
    case Releasing(j) => s.(lock := Free, pcs := s.pcs[t := Running(j)])
    case Running(j) => s.(finished := s.finished + [Taken(t, j)], pcs := s.pcs[t := Locking])
  }

  ghost predicate StepBy(s: State, s': State, t: nat, c: Choice) {
    && t < |s.pcs| && Enabled(s, t) && Defined(s, t)
    && (s.pcs[t].Signalling? ==> MayWake(s, c.woken))
    && s' == After(s, t, c)
  }

  /** A sleeper wakes without a signal. */
  ghost predicate Spurious(s: State, s': State, t: nat) {
    Sleeping(s, t) && s' == s.(pcs := s.pcs[t := Awake])
  }

  /** The destructor sets shutdown without the mutex, at any time. */
  ghost predicate Halt(s: State, s': State) {
    s.stage.Serving? && s' == s.(stage := Flagged)
  }

  /** ... and wakes everybody who sleeps. */
  ghost predicate Broadcast(s: State, s': State, woken: set<nat>) {
    && s.stage.Flagged? && s' == s.(stage := Announced, pcs := Wake(s.pcs, woken))
    && forall t :: t in woken <==> Sleeping(s, t)
  }

  ghost predicate Step(s: State, s': State) {
    || (exists t: nat, c :: StepBy(s, s', t, c))
    || (exists t: nat :: Spurious(s, s', t))
    || Halt(s, s')
    || (exists woken :: Broadcast(s, s', woken))
  }

  ghost predicate Init(s: State) {
    && s.list == [] && s.curQueueSize == 0 && s.lock.Free? && s.stage.Serving? && s.called == [] && s.accepted == []
    && s.popped == [] && s.finished == []
    && forall t | 0 <= t < |s.pcs| :: s.pcs[t].Outside? || s.pcs[t].Locking?
  }

  ghost predicate Run(states: seq<State>) {
    && states != [] && Init(states[0])
    && forall i | 0 <= i < |states| - 1 :: Step(states[i], states[i + 1])
  }

  // ---------- The invariant ----------

  ghost predicate OneHolder(s: State) {
    && (s.lock.Held? ==> s.lock.thread < |s.pcs|)
    && forall t | 0 <= t < |s.pcs| :: Locked(s.pcs[t]) <==> s.lock == Held(t)
  }

  /** The lock holder is between changing the list and changing the counter. */
  predicate MidUpdate(pc: Pc) {
    pc.Counting? || pc.Fronting? || pc.Popping?
  }

  /** The counter is the length of the list, one less in the middle of an update. */
  ghost predicate Counted(s: State) {
    && s.curQueueSize >= 0
    && |s.list| == s.curQueueSize
                   + (if s.lock.Held? && s.lock.thread < |s.pcs| && MidUpdate(s.pcs[s.lock.thread]) then 1 else 0)
    && forall t | 0 <= t < |s.pcs| ::
         && (s.pcs[t].Dozing? ==> s.curQueueSize == 0)
         && (s.pcs[t].Checking? ==> s.curQueueSize > 0 || !s.stage.Serving?)
         && (s.pcs[t].Quitting? ==> !s.stage.Serving?)
         && (s.pcs[t].Taking? ==> s.curQueueSize > 0)
         && (s.pcs[t].Popping? ==> s.list != [] && s.list[0] == s.pcs[t].job)
  }

  function Jobs(log: seq<Taken>): (r: seq<Job>)
    ensures |r| == |log|
  {
    seq(|log|, i requires 0 <= i < |log| => log[i].job)
  }

  ghost predicate Conserved(s: State) {
    s.accepted == Jobs(s.popped) + s.list
  }

  /** A call that has not pushed its job yet. */
  function Offer(pc: Pc, job: Job): nat {
    if pc == Adding(job) || pc == Pushing(job) then 1 else 0
  }

  function Offers(job: Job): Pc -> nat {
    (pc: Pc) => Offer(pc, job)
  }

  /** Every job a call came with is pushed, once, or about to be. */
  ghost predicate Offered(s: State) {
    forall job :: multiset(s.called)[job] == multiset(s.accepted)[job] + Total(s.pcs, Offers(job))
  }

  /** Whether thread `t`, standing at `pc`, has the job `x` in hand. */
  function Hand(pc: Pc, t: nat, x: Taken): nat {
    if x.worker == t && (pc == Releasing(x.job) || pc == Running(x.job)) then 1 else 0
  }

  function InHand(s: State, x: Taken): nat {
    if x.worker < |s.pcs| then Hand(s.pcs[x.worker], x.worker, x) else 0
  }

  /** What a worker took it has either run or still in hand. */
  ghost predicate Worked(s: State) {
    forall x :: multiset(s.popped)[x] == multiset(s.finished)[x] + InHand(s, x)
  }

  ghost predicate SomeWorkerUp(s: State) {
    exists t: nat :: t < |s.pcs| && Worker(s.pcs[t]) && !s.pcs[t].Asleep?
  }

  ghost predicate SignalComing(s: State) {
    exists t: nat :: t < |s.pcs| && (s.pcs[t].Counting? || s.pcs[t].Leaving? || s.pcs[t].Signalling?)
  }

  ghost predicate SomeWorker(s: State) {
    exists t: nat :: t < |s.pcs| && Worker(s.pcs[t])
  }

  /** A worker that does not sleep, or a signal still to come. */
  function Up(pc: Pc): nat {
    if (Worker(pc) && !pc.Asleep?) || pc.Counting? || pc.Leaving? || pc.Signalling? then 1 else 0
  }

  /** Until shutdown: there are no more queued jobs than workers that do not sleep and signals still
      to come, or nobody sleeps. */
  ghost predicate Enough(s: State) {
    s.stage.Serving? ==> |s.list| <= Total(s.pcs, Up) || forall t: nat :: !Sleeping(s, t)
  }

  ghost predicate Inv(s: State) {
    OneHolder(s) && Counted(s) && Offered(s) && Conserved(s) && Worked(s) && Enough(s)
  }

  /** A queued job never waits on sleepers alone. */
  lemma NoLostWakeup(s: State)
    requires Enough(s) && s.stage.Serving? && s.list != [] && SomeWorker(s)
    ensures SomeWorkerUp(s) || SignalComing(s)
  {
    if t: nat :| Sleeping(s, t) {
      var u := TotalPositive(s.pcs, Up);
      assert (Worker(s.pcs[u]) && !s.pcs[u].Asleep?) || s.pcs[u].Counting? || s.pcs[u].Leaving? || s.pcs[u].Signalling?;
    } else {
      var w: nat :| w < |s.pcs| && Worker(s.pcs[w]);
      assert !Sleeping(s, w);
    }
  }

  lemma StepKeepsHolder(s: State, s': State, t: nat, c: Choice)
    requires Inv(s) && StepBy(s, s', t, c)
    ensures OneHolder(s')
  {
  }

  lemma StepKeepsCount(s: State, s': State, t: nat, c: Choice)
    requires Inv(s) && StepBy(s, s', t, c)
    ensures Counted(s')
  {
    assert Locked(s.pcs[t]) ==> s.lock == Held(t);
  }

  lemma StepConserves(s: State, s': State, t: nat, c: Choice)
    requires Inv(s) && StepBy(s, s', t, c)
    ensures Conserved(s')
  {
    if s.pcs[t].Popping? {
      assert Jobs(s'.popped) == Jobs(s.popped) + [s.list[0]];
      assert s.list == [s.list[0]] + s.list[1..];
    }
  }

  lemma JobLogged(log: seq<Job>, j: Job, job: Job)
    ensures multiset(log + [j])[job] == multiset(log)[job] + if j == job then 1 else 0
  {
  }

  lemma OfferMoves(s: State, s': State, t: nat, c: Choice, job: Job)
    requires StepBy(s, s', t, c)
    ensures s'.called == if s.pcs[t].Outside? then s.called + [c.job] else s.called
    ensures s'.accepted == if s.pcs[t].Pushing? then s.accepted + [s.pcs[t].job] else s.accepted
    ensures Offer(s'.pcs[t], job) + (if s.pcs[t].Pushing? && s.pcs[t].job == job then 1 else 0)
         == Offer(s.pcs[t], job) + (if s.pcs[t].Outside? && c.job == job then 1 else 0)
  {
  }

  lemma {:induction false} SameTotal(s: seq<Pc>, s': seq<Pc>, weight: Pc -> nat)
    requires |s| == |s'| && forall k | 0 <= k < |s| :: weight(s'[k]) == weight(s[k])
    ensures Total(s', weight) == Total(s, weight)
  {
    if s != [] {
      SameTotal(s[1..], s'[1..], weight);
    }
  }

  lemma OneThreadMoves(s: State, s': State, t: nat, c: Choice)
    requires StepBy(s, s', t, c) && !s.pcs[t].Signalling?
    ensures s'.pcs == s.pcs[t := s'.pcs[t]]
  {
  }

  lemma SignalKeepsOffers(s: State, s': State, t: nat, c: Choice, job: Job)
    requires StepBy(s, s', t, c) && s.pcs[t].Signalling?
    ensures Total(s'.pcs, Offers(job)) == Total(s.pcs, Offers(job))
  {
    forall k | 0 <= k < |s.pcs| ensures Offers(job)(s'.pcs[k]) == Offers(job)(s.pcs[k]) {
      assert k in c.woken ==> Sleeping(s, k);
    }
    SameTotal(s.pcs, s'.pcs, Offers(job));
  }

  lemma StepKeepsOffers(s: State, s': State, t: nat, c: Choice, job: Job)
    requires Offered(s) && StepBy(s, s', t, c)
    ensures multiset(s'.called)[job] == multiset(s'.accepted)[job] + Total(s'.pcs, Offers(job))
  {
    OfferMoves(s, s', t, c, job);
    JobLogged(s.called, c.job, job);
    assert multiset(s.called)[job] == multiset(s.accepted)[job] + Total(s.pcs, Offers(job));
    if s.pcs[t].Signalling? {
      SignalKeepsOffers(s, s', t, c, job);
    } else {
      OneThreadMoves(s, s', t, c);
      TotalUpdate(s.pcs, Offers(job), t, s'.pcs[t]);
      if s.pcs[t].Pushing? {
        JobLogged(s.accepted, s.pcs[t].job, job);
      }
    }
  }

  lemma Logged(log: seq<Taken>, y: Taken, x: Taken)
    ensures multiset(log + [y])[x] == multiset(log)[x] + if x == y then 1 else 0
  {
  }

  /** How a step moves a job through the hand of its thread. */
  lemma HandMoves(s: State, s': State, t: nat, c: Choice, x: Taken)
    requires StepBy(s, s', t, c)
    ensures s'.popped == if s.pcs[t].Popping? then s.popped + [Taken(t, s.pcs[t].job)] else s.popped
    ensures s'.finished == if s.pcs[t].Running? then s.finished + [Taken(t, s.pcs[t].job)] else s.finished
    ensures Hand(s'.pcs[t], t, x) == (if s.pcs[t].Popping? && x == Taken(t, s.pcs[t].job) then 1 else 0)
                                     + (if s.pcs[t].Releasing? then Hand(s.pcs[t], t, x) else 0)
  {
  }

  lemma OthersKeepTheirJobs(s: State, s': State, t: nat, c: Choice, u: nat, x: Taken)
    requires StepBy(s, s', t, c) && u < |s.pcs| && u != t
    ensures |s'.pcs| == |s.pcs| && Hand(s'.pcs[u], u, x) == Hand(s.pcs[u], u, x)
  {
    assert s.pcs[t].Signalling? && u in c.woken ==> Sleeping(s, u);
  }

  lemma StepKeepsWork(s: State, s': State, t: nat, c: Choice, x: Taken)
    requires Worked(s) && StepBy(s, s', t, c)
    ensures multiset(s'.popped)[x] == multiset(s'.finished)[x] + InHand(s', x)
  {
    HandMoves(s, s', t, c, x);
    assert multiset(s.popped)[x] == multiset(s.finished)[x] + InHand(s, x);
    if x.worker < |s.pcs| && x.worker != t {
      OthersKeepTheirJobs(s, s', t, c, x.worker, x);
    }
    if s.pcs[t].Popping? {
      Logged(s.popped, Taken(t, s.pcs[t].job), x);
    } else if s.pcs[t].Running? {
      Logged(s.finished, Taken(t, s.pcs[t].job), x);
    }
  }

  /** Every step but a signal, falling asleep and leaving keeps its thread up if it was, and brings
      one up for a job that it queues. */
  lemma UpMoves(s: State, s': State, t: nat, c: Choice)
    requires StepBy(s, s', t, c) && !s.pcs[t].Signalling? && !s.pcs[t].Dozing? && !s.pcs[t].Quitting?
    ensures s'.pcs == s.pcs[t := s'.pcs[t]] && !s'.pcs[t].Asleep? && s'.stage == s.stage
    ensures |s'.list| + Up(s.pcs[t]) <= |s.list| + Up(s'.pcs[t])
  {
  }

  /** A signal brings up one of the sleepers, if there is any, for the thread that sent it. */
  lemma SignalKeepsEnough(s: State, s': State, t: nat, c: Choice)
    requires Enough(s) && StepBy(s, s', t, c) && s.pcs[t].Signalling?
    ensures Enough(s')
  {
    var woken := Wake(s.pcs, c.woken);
    if w: nat :| Sleeping(s, w) {
      var u :| u in c.woken;
      assert Sleeping(s, u);
      forall k | 0 <= k < |s.pcs| ensures Up(s.pcs[k]) <= Up(woken[k]) {
        assert k in c.woken ==> Sleeping(s, k);
      }
      TotalGrows(s.pcs, woken, Up, u);
      TotalUpdate(woken, Up, t, Outside);
    } else {
      assert forall k | k in c.woken :: Sleeping(s, k);
      assert forall k: nat | k < |s.pcs| && k != t :: s'.pcs[k] == s.pcs[k];
      forall k: nat ensures !Sleeping(s', k) {
        assert !Sleeping(s, k);
      }
    }
  }

  lemma StepKeepsEnough(s: State, s': State, t: nat, c: Choice)
    requires Inv(s) && StepBy(s, s', t, c)
    ensures Enough(s')
  {
    if s.pcs[t].Signalling? {
      SignalKeepsEnough(s, s', t, c);
    } else if s.pcs[t].Dozing? {
      assert Locked(s.pcs[t]) && s.list == [];
    } else if !s.pcs[t].Quitting? {
      UpMoves(s, s', t, c);
      TotalUpdate(s.pcs, Up, t, s'.pcs[t]);
      if forall u: nat :: !Sleeping(s, u) {
        forall u: nat ensures !Sleeping(s', u) {
          assert !Sleeping(s, u);
        }
      }
    }
  }

  lemma StepKeepsInv(s: State, s': State, t: nat, c: Choice)
    requires Inv(s) && StepBy(s, s', t, c)
    ensures Inv(s')
  {
    StepKeepsHolder(s, s', t, c);
    StepKeepsCount(s, s', t, c);
    StepConserves(s, s', t, c);
    forall x ensures multiset(s'.popped)[x] == multiset(s'.finished)[x] + InHand(s', x) {
      StepKeepsWork(s, s', t, c, x);
    }
    forall job ensures multiset(s'.called)[job] == multiset(s'.accepted)[job] + Total(s'.pcs, Offers(job)) {
      StepKeepsOffers(s, s', t, c, job);
    }
    StepKeepsEnough(s, s', t, c);
  }

  lemma SpuriousKeepsInv(s: State, s': State, t: nat)
    requires Inv(s) && Spurious(s, s', t)
    ensures Inv(s')
  {
    TotalUpdate(s.pcs, Up, t, Awake);
    SameHands(s, s');
  }

  /** Only sleepers move, so that nobody's job does. */
  lemma SameHands(s: State, s': State)
    requires Offered(s) && Worked(s) && |s'.pcs| == |s.pcs| && s'.called == s.called && s'.accepted == s.accepted
    requires s'.popped == s.popped && s'.finished == s.finished
    requires forall t | 0 <= t < |s.pcs| :: s'.pcs[t] == s.pcs[t] || (s.pcs[t].Asleep? && s'.pcs[t].Awake?)
    ensures Offered(s') && Worked(s')
  {
    forall x ensures multiset(s'.popped)[x] == multiset(s'.finished)[x] + InHand(s', x) {
      assert InHand(s', x) == InHand(s, x);
    }
    forall job ensures multiset(s'.called)[job] == multiset(s'.accepted)[job] + Total(s'.pcs, Offers(job)) {
      SameTotal(s.pcs, s'.pcs, Offers(job));
    }
  }

  lemma ShutdownKeepsInv(s: State, s': State)
    requires Inv(s) && (Halt(s, s') || exists woken :: Broadcast(s, s', woken))
    ensures Inv(s')
  {
    if !Halt(s, s') {
      var woken :| Broadcast(s, s', woken);
      forall t | 0 <= t < |s.pcs| ensures s'.pcs[t] == if s.pcs[t].Asleep? then Awake else s.pcs[t] {
        assert t in woken <==> Sleeping(s, t);
      }
    }
    SameHands(s, s');
  }

  lemma InitInv(s: State)
    requires Init(s)
    ensures Inv(s)
  {
    assert forall t: nat :: !Sleeping(s, t);
    forall job ensures multiset(s.called)[job] == multiset(s.accepted)[job] + Total(s.pcs, Offers(job)) {
      TotalZero(s.pcs, Offers(job));
    }
  }

  lemma AnyStepKeepsInv(s: State, s': State)
    requires Inv(s) && Step(s, s')
    ensures Inv(s')
  {
    if t: nat, c :| StepBy(s, s', t, c) {
      StepKeepsInv(s, s', t, c);
    } else if t: nat :| Spurious(s, s', t) {
      SpuriousKeepsInv(s, s', t);
    } else {
      ShutdownKeepsInv(s, s');
    }
  }

  // ---------- What holds in every run ----------

  /** In every state of every run, shutdown included: the counter agrees with the list whenever the
      mutex is free, front() is only called on nonempty lists, and jobs are taken in order. Until
      shutdown the awake workers and the signals to come are enough for the queued jobs. */
  lemma {:induction false} RunsAreSafe(states: seq<State>, i: nat)
    requires Run(states) && i < |states|
    ensures Inv(states[i])
    ensures states[i].lock.Free? ==> states[i].curQueueSize == |states[i].list|
    ensures forall t: nat | t < |states[i].pcs| :: Defined(states[i], t)
    decreases i
  {
    if i == 0 {
      InitInv(states[0]);
    } else {
      RunsAreSafe(states, i - 1);
      assert Step(states[i - 1], states[i - 1 + 1]);
      AnyStepKeepsInv(states[i - 1], states[i]);
    }
    forall t: nat | t < |states[i].pcs| ensures Defined(states[i], t) {
      assert Locked(states[i].pcs[t]) ==> states[i].lock == Held(t);
    }
  }

  /** No stall: until shutdown, while a job is queued and there is a worker, some thread inside the
      pool can move. */
  lemma QueuedMeansEnabled(s: State) returns (t: nat)
    requires Inv(s) && s.stage.Serving? && s.list != [] && SomeWorker(s)
    ensures t < |s.pcs| && !s.pcs[t].Outside? && Enabled(s, t)
  {
    NoLostWakeup(s);
    if s.lock.Held? {
      t := s.lock.thread;
      assert Locked(s.pcs[t]);
    } else if SomeWorkerUp(s) {
      t :| t < |s.pcs| && Worker(s.pcs[t]) && !s.pcs[t].Asleep?;
    } else {
      t :| t < |s.pcs| && (s.pcs[t].Counting? || s.pcs[t].Leaving? || s.pcs[t].Signalling?);
    }
  }

  // ---------- Who hears of the shutdown ----------

  /** `states` is a way on from `s`. */
  ghost predicate Continues(s: State, states: seq<State>) {
    && states != [] && states[0] == s
    && forall i | 0 <= i < |states| - 1 :: Step(states[i], states[i + 1])
  }

  ghost predicate NobodySleeps(s: State) {
    forall t: nat :: !Sleeping(s, t)
  }

  /** Whatever happens from `s` on, nobody falls asleep. */
  ghost predicate NobodyEverSleeps(s: State) {
    forall states :: Continues(s, states) ==> NobodySleeps(states[|states| - 1])
  }

  /** No worker has found the queue empty and is about to wait. */
  ghost predicate NobodyDozes(s: State) {
    forall t: nat | t < |s.pcs| :: !s.pcs[t].Dozing?
  }

  /** Once shutdown is set, nobody begins to doze: the loop condition lets every worker out. */
  lemma ShutdownKeepsAwake(s: State, s': State)
    requires Step(s, s') && !s.stage.Serving? && NobodyDozes(s)
    ensures !s'.stage.Serving? && NobodyDozes(s') && (NobodySleeps(s) ==> NobodySleeps(s'))
  {
    if t: nat, c :| StepBy(s, s', t, c) {
      forall u: nat | u < |s'.pcs| ensures !s'.pcs[u].Dozing? && (s'.pcs[u].Asleep? ==> s.pcs[u].Asleep?) {
        assert !s.pcs[u].Dozing? && !s.pcs[t].Dozing?;
      }
      assert forall u: nat :: Sleeping(s', u) ==> Sleeping(s, u);
    } else if t: nat :| Spurious(s, s', t) {
      assert forall u: nat :: Sleeping(s', u) ==> Sleeping(s, u);
    } else if woken :| Broadcast(s, s', woken) {
      assert forall u: nat :: Sleeping(s', u) ==> Sleeping(s, u);
    }
  }

  lemma {:induction false} ShutdownKeepsAllAwake(s: State, states: seq<State>, i: nat)
    requires Inv(s) && Continues(s, states) && i < |states|
    requires !s.stage.Serving? && NobodyDozes(s)
    ensures Inv(states[i]) && !states[i].stage.Serving? && NobodyDozes(states[i])
    ensures NobodySleeps(s) ==> NobodySleeps(states[i])
    decreases i
  {
    if i > 0 {
      ShutdownKeepsAllAwake(s, states, i - 1);
      assert Step(states[i - 1], states[i - 1 + 1]);
      AnyStepKeepsInv(states[i - 1], states[i]);
      ShutdownKeepsAwake(states[i - 1], states[i]);
    }
  }

  lemma BroadcastWakesAll(s: State, s': State, woken: set<nat>)
    requires Broadcast(s, s', woken)
    ensures NobodySleeps(s') && (NobodyDozes(s') <==> NobodyDozes(s))
  {
    forall t: nat | t < |s.pcs| ensures s'.pcs[t] == if s.pcs[t].Asleep? then Awake else s.pcs[t] {
      assert t in woken <==> Sleeping(s, t);
    }
  }

  /** A worker that dozes falls asleep in one step. */
  lemma DozerFallsAsleep(s: State, t: nat) returns (states: seq<State>)
    requires t < |s.pcs| && s.pcs[t].Dozing?
    ensures Continues(s, states) && Sleeping(states[|states| - 1], t)
  {
    var c := Choice(0, {});
    assert StepBy(s, After(s, t, c), t, c);
    states := [s, After(s, t, c)];
  }

  /** The broadcast of the destructor reaches everybody for good exactly when, as it is sent, no worker
      stands between finding the queue empty and going to sleep. */
  lemma ShutdownIsHeardIff(s: State, s': State, woken: set<nat>)
    requires Inv(s) && Broadcast(s, s', woken)
    ensures NobodyEverSleeps(s') <==> NobodyDozes(s)
  {
    BroadcastWakesAll(s, s', woken);
    ShutdownKeepsInv(s, s');
    if NobodyDozes(s) {
      forall states | Continues(s', states) ensures NobodySleeps(states[|states| - 1]) {
        ShutdownKeepsAllAwake(s', states, |states| - 1);
      }
    } else {
      var t: nat :| t < |s'.pcs| && s'.pcs[t].Dozing?;
      var states := DozerFallsAsleep(s', t);
      assert !NobodySleeps(states[|states| - 1]);
    }
  }

  /** No worker holds the mutex; so it is for whoever holds it without being a worker. */
  ghost predicate NoWorkerInside(s: State) {
    forall t: nat | t < |s.pcs| :: !(Worker(s.pcs[t]) && Locked(s.pcs[t]))
  }

  /** A broadcast under the mutex would be heard by everybody. */
  lemma BroadcastUnderMutexIsHeard(s: State, s': State, woken: set<nat>)
    requires Inv(s) && Broadcast(s, s', woken) && NoWorkerInside(s)
    ensures NobodyEverSleeps(s')
  {
    ShutdownIsHeardIff(s, s', woken);
  }

  /** ... and so would any later broadcast if only the flag were set under the mutex. */
  lemma FlagUnderMutexIsHeard(s: State, states: seq<State>, woken: set<nat>)
    requires Inv(s) && |states| >= 2 && Halt(s, states[0]) && NoWorkerInside(s) && Continues(states[0], states)
    requires Broadcast(states[|states| - 2], states[|states| - 1], woken)
    ensures NobodyEverSleeps(states[|states| - 1])
  {
    var n := |states| - 1;
    ShutdownKeepsInv(s, states[0]);
    ShutdownKeepsAllAwake(states[0], states, n - 1);
    ShutdownIsHeardIff(states[n - 1], states[n], woken);
  }

  /** When everybody has heard, the pool does not stall before the last worker has left. */
  lemma HeardMeansEnabled(s: State) returns (t: nat)
    requires Inv(s) && NobodySleeps(s) && SomeWorker(s)
    ensures t < |s.pcs| && !s.pcs[t].Outside? && Enabled(s, t)
  {
    if s.lock.Held? {
      t := s.lock.thread;
      assert Locked(s.pcs[t]);
    } else {
      t :| t < |s.pcs| && Worker(s.pcs[t]);
      assert !Sleeping(s, t);
    }
  }

  /** A run in which the shutdown is not heard, because it does not take the mutex: a worker that has
      found no job and is about to wait sleeps on after flag and broadcast, and nobody is left to wake it. */
  lemma ShutdownCanBeMissed() returns (states: seq<State>)
    ensures Run(states)
    ensures var s := states[|states| - 1];
            s.stage.Announced? && |s.pcs| == 1 && s.pcs[0].Asleep? && s.lock.Free? && !Enabled(s, 0)
  {
    var s0 := State([], 0, Free, [Locking], Serving, [], [], [], []);
    var s1 := s0.(lock := Held(0), pcs := [Testing]);
    var s2 := s1.(pcs := [Dozing]);
    var s3 := s2.(stage := Flagged);
    var s4 := s3.(stage := Announced);
    var s5 := s4.(lock := Free, pcs := [Asleep]);
    var c := Choice(0, {});
    assert StepBy(s0, s1, 0, c) && StepBy(s1, s2, 0, c) && Halt(s2, s3);
    assert Wake(s3.pcs, {}) == s3.pcs;
    assert Broadcast(s3, s4, {}) && StepBy(s4, s5, 0, c);
    states := [s0, s1, s2, s3, s4, s5];
  }

  /** After shutdown nobody goes to take another job: at the test behind the loop every worker quits. */
  lemma ShutdownTakesNoMore(s: State, s': State, t: nat, c: Choice, u: nat)
    requires StepBy(s, s', t, c) && !s.stage.Serving? && u < |s.pcs|
    ensures s'.pcs[u].Taking? ==> s.pcs[u].Taking?
    ensures u == t && s.pcs[u].Checking? ==> s'.pcs[u].Quitting?
    ensures u == t && s.pcs[u].Quitting? ==> s'.pcs[u].Exited?
  {
  }

  /** ... and before it nobody quits. */
  lemma NobodyQuitsBeforeShutdown(s: State, s': State, t: nat, c: Choice, u: nat)
    requires Inv(s) && StepBy(s, s', t, c) && s.stage.Serving? && u < |s.pcs|
    ensures Worker(s.pcs[u]) ==> Worker(s'.pcs[u]) && !s'.pcs[u].Quitting?
  {
    assert !s.pcs[u].Quitting? && !s.pcs[t].Quitting?;
  }

  // ---------- Every accepted job is run ----------

  /** A step inside the pool: of a worker, or of a call of pool_add_worker that has begun. */
  ghost predicate InsideStep(s: State, s': State) {
    exists t: nat, c :: StepBy(s, s', t, c) && !s.pcs[t].Outside?
  }

  /** How many steps a thread can take before it waits; a job still to be queued counts for ten, a signal
      still to be sent for what it may wake of `n` threads. */
  function RankOf(pc: Pc, n: nat): nat {
    match pc
    case Outside => 0
    case Adding(_) => 7 * n + 15
    case Pushing(_) => 7 * n + 14
    case Counting => 7 * n + 3
    case Leaving => 7 * n + 2
    case Signalling => 7 * n + 1
    case Locking => 7
    case Testing => 6
    case Dozing => 1
    case Asleep => 0
    case Awake => 7
    case Checking => 5
    case Quitting => 1
    case Exited => 0
    case Taking => 4
    case Fronting => 3
    case Popping(_) => 2
    case Releasing(_) => 9
    case Running(_) => 8
  }

  function Rank(n: nat): Pc -> nat {
    (pc: Pc) => RankOf(pc, n)
  }

  function Pending(s: State): nat {
    10 * |s.list| + Total(s.pcs, Rank(|s.pcs|))
  }

  lemma RankMoves(s: State, s': State, t: nat, c: Choice)
    requires StepBy(s, s', t, c) && !s.pcs[t].Outside? && !s.pcs[t].Signalling?
    ensures s'.pcs == s.pcs[t := s'.pcs[t]] && s'.stage == s.stage
    ensures s'.called == s.called && s.accepted <= s'.accepted
    ensures 10 * |s'.list| + RankOf(s'.pcs[t], |s.pcs|) < 10 * |s.list| + RankOf(s.pcs[t], |s.pcs|)
  {
  }

  lemma SignalShrinks(s: State, s': State, t: nat, c: Choice)
    requires StepBy(s, s', t, c) && s.pcs[t].Signalling?
    ensures Pending(s') < Pending(s) && s'.stage == s.stage
    ensures s'.called == s.called && s'.accepted == s.accepted
  {
    var n, woken := |s.pcs|, Wake(s.pcs, c.woken);
    forall k | 0 <= k < n ensures Rank(n)(woken[k]) <= Rank(n)(s.pcs[k]) + 7 {
      assert k in c.woken ==> Sleeping(s, k);
    }
    TotalRises(s.pcs, woken, Rank(n));
    assert t !in c.woken by {
      assert t in c.woken ==> Sleeping(s, t);
    }
    TotalUpdate(woken, Rank(n), t, Outside);
  }

  lemma {:induction false} TotalRises(s: seq<Pc>, s': seq<Pc>, weight: Pc -> nat)
    requires |s| == |s'| && forall k | 0 <= k < |s| :: weight(s'[k]) <= weight(s[k]) + 7
    ensures Total(s', weight) <= Total(s, weight) + 7 * |s|
  {
    if s != [] {
      TotalRises(s[1..], s'[1..], weight);
    }
  }

  /** Without new calls of pool_add_worker the pool comes to rest, whatever the schedule and whomever the
      signals wake. */
  lemma InsideStepShrinks(s: State, s': State)
    requires Inv(s) && InsideStep(s, s')
    ensures Inv(s') && Pending(s') < Pending(s)
    ensures s'.called == s.called && s.accepted <= s'.accepted && s'.stage == s.stage
  {
    var t: nat, c :| StepBy(s, s', t, c) && !s.pcs[t].Outside?;
    StepKeepsInv(s, s', t, c);
    if s.pcs[t].Signalling? {
      SignalShrinks(s, s', t, c);
    } else {
      RankMoves(s, s', t, c);
      TotalUpdate(s.pcs, Rank(|s.pcs|), t, s'.pcs[t]);
    }
  }

  /** What was called for has been accepted, what was accepted has been taken, in order, and what was taken
      has been run. */
  ghost predicate AllRun(s: State) {
    && s.list == [] && multiset(s.called) == multiset(s.accepted)
    && s.accepted == Jobs(s.popped) && multiset(s.finished) == multiset(s.popped)
  }

  ghost predicate AtRest(s: State) {
    forall t: nat | t < |s.pcs| && !s.pcs[t].Outside? :: !Enabled(s, t)
  }

  /** Whoever holds the mutex can go on. */
  lemma HolderCanMove(s: State)
    requires OneHolder(s)
    ensures s.lock.Held? ==> var t := s.lock.thread; t < |s.pcs| && !s.pcs[t].Outside? && Enabled(s, t)
  {
    assert s.lock.Held? ==> Locked(s.pcs[s.lock.thread]);
  }

  /** ... and at rest every call has returned, every worker sleeps, and every accepted job has been run,
      unless shutdown came first. */
  lemma RestMeansRun(s: State)
    requires Inv(s) && s.stage.Serving? && SomeWorker(s) && AtRest(s)
    ensures AllRun(s)
    ensures forall t: nat | t < |s.pcs| :: s.pcs[t].Outside? || s.pcs[t].Asleep? || s.pcs[t].Exited?
  {
    HolderCanMove(s);
    forall job ensures multiset(s.called)[job] == multiset(s.accepted)[job] {
      TotalZero(s.pcs, Offers(job));
    }
    if s.list != [] {
      var t := QueuedMeansEnabled(s);
    }
    forall x ensures multiset(s.finished)[x] == multiset(s.popped)[x] {
      assert x.worker < |s.pcs| ==> !s.pcs[x.worker].Releasing? && !s.pcs[x.worker].Running?;
      assert InHand(s, x) == 0;
    }
  }

  /** At rest after a shutdown that everybody has heard, every worker has left, so that the joins end. */
  lemma RestMeansLeft(s: State)
    requires Inv(s) && NobodySleeps(s) && AtRest(s)
    ensures !SomeWorker(s)
  {
    if SomeWorker(s) {
      var t := HeardMeansEnabled(s);
    }
  }

  ghost predicate InsideRun(states: seq<State>) {
    states != [] && forall i | 0 <= i < |states| - 1 :: InsideStep(states[i], states[i + 1])
  }

  /** No run without new calls has more steps than this. */
  lemma {:induction false} InsideRunsAreShort(states: seq<State>, i: nat)
    requires InsideRun(states) && Inv(states[0]) && i < |states|
    ensures Inv(states[i]) && i + Pending(states[i]) <= Pending(states[0])
    ensures states[i].called == states[0].called && states[0].accepted <= states[i].accepted
    ensures states[i].stage == states[0].stage
    decreases i
  {
    if i > 0 {
      InsideRunsAreShort(states, i - 1);
      assert InsideStep(states[i - 1], states[i - 1 + 1]);
      InsideStepShrinks(states[i - 1], states[i]);
    }
  }

  /** While the pool is serving and has a worker, every job it was called with can be brought to its end,
      and is by any schedule that runs on for as long as it can. */
  lemma {:induction false} AcceptedGetsRun(s: State) returns (states: seq<State>)
    requires Inv(s) && s.stage.Serving? && SomeWorker(s)
    ensures InsideRun(states) && states[0] == s
    ensures var e := states[|states| - 1]; AllRun(e) && e.called == s.called && s.accepted <= e.accepted
    decreases Pending(s)
  {
    if AtRest(s) {
      RestMeansRun(s);
      states := [s];
    } else {
      var s' := InsideStepExists(s);
      InsideStepShrinks(s, s');
      var rest := AcceptedGetsRun(s');
      states := [s] + rest;
      LongerRun(s, rest);
    }
  }

  lemma LongerRun(s: State, rest: seq<State>)
    requires InsideRun(rest) && InsideStep(s, rest[0])
    ensures InsideRun([s] + rest)
  {
    var states := [s] + rest;
    forall i | 0 <= i < |states| - 1 ensures InsideStep(states[i], states[i + 1]) {
      assert i > 0 ==> InsideStep(rest[i - 1], rest[i - 1 + 1]);
    }
  }

  lemma InsideStepExists(s: State) returns (s': State)
    requires Inv(s) && s.stage.Serving? && SomeWorker(s) && !AtRest(s)
    ensures InsideStep(s, s') && SomeWorker(s')
  {
    var t: nat :| t < |s.pcs| && !s.pcs[t].Outside? && Enabled(s, t);
    var sleepers := set k | 0 <= k < |s.pcs| && s.pcs[k].Asleep?;
    var c := Choice(0, sleepers);
    if k :| Sleeping(s, k) {
      assert k in sleepers;
    }
    assert Locked(s.pcs[t]) ==> s.lock == Held(t);
    s' := After(s, t, c);
    assert StepBy(s, s', t, c);
    var w: nat :| w < |s.pcs| && Worker(s.pcs[w]);
    NobodyQuitsBeforeShutdown(s, s', t, c, w);
  }
}
