/** Sorted list and heap are interchangeable: over every shared run of add, delete and tick
    both fire the same timers at every tick, in the same order of expiry. */
module TimerAgreement {
  import opened Lists
  import opened TimerList
  import opened TimerHeap

  datatype Op<T> = AddOp(timer: T, expire: int) | DeleteOp(timer: T) | TickOp(now: int)

  /** Every timer is added once, and deleted only after it was added. */
  ghost predicate WellFormed<T>(ops: seq<Op<T>>, added: set<T>)
    decreases |ops|
  {
    ops == [] ||
    match ops[0]
    case AddOp(t, _) => t !in added && WellFormed(ops[1..], added + {t})
    case DeleteOp(t) => t in added && WellFormed(ops[1..], added)
    case TickOp(_) => WellFormed(ops[1..], added)
  }

  // ---------- The obligations of any timer queue ----------

  ghost function LiveAfter<T>(live: set<Item<T>>, op: Op<T>): set<Item<T>> {
    match op
    case AddOp(t, e) => live + {Item(t, e)}
    case DeleteOp(t) => set x | x in live && x.timer != t
    case TickOp(now) => set x | x in live && now < x.expire
  }

  /** A trace that a correct timer queue may produce: every tick fires what is due. */
  ghost predicate Legal<T>(live: set<Item<T>>, ops: seq<Op<T>>, trace: seq<seq<Item<T>>>)
    decreases |ops|
  {
    if ops == [] then trace == []
    else if ops[0].TickOp? then
      trace != [] && FiresDue(live, ops[0].now, trace[0]) && Legal(LiveAfter(live, ops[0]), ops[1..], trace[1..])
    else Legal(LiveAfter(live, ops[0]), ops[1..], trace)
  }

  // ---------- The list's run ----------

  function ListStep<T(==)>(s: seq<Item<T>>, op: Op<T>): seq<Item<T>> {
    match op
    case AddOp(t, e) => Sort(s + [Item(t, e)])
    case DeleteOp(t) => WithoutTimer(s, t)
    case TickOp(now) => s[DueCount(s, now)..]
  }

  function ListTrace<T(==)>(s: seq<Item<T>>, ops: seq<Op<T>>): seq<seq<Item<T>>>
    decreases |ops|
  {
    if ops == [] then []
    else
      var rest := ListTrace(ListStep(s, ops[0]), ops[1..]);
      if ops[0].TickOp? then [s[..DueCount(s, ops[0].now)]] + rest else rest
  }

  /** The list holds the live timers, sorted, each once. */
  ghost predicate ListHolds<T>(s: seq<Item<T>>, live: set<Item<T>>) {
    && Sorted(s) && Distinct(s)
    && (forall x | x in s :: x in live) && (forall x | x in live :: x in s)
  }

  lemma {:induction false} WithoutTimerMembers<T(!new)>(s: seq<Item<T>>, t: T)
    ensures forall x :: x in WithoutTimer(s, t) <==> x in s && x.timer != t
    ensures forall i | 0 <= i < |WithoutTimer(s, t)| :: WithoutTimer(s, t)[i] in s
  {
    if s != [] {
      WithoutTimerMembers(s[1..], t);
      assert s == [s[0]] + s[1..];
    }
  }

  lemma ConsHolds<T>(x: Item<T>, r: seq<Item<T>>)
    requires Sorted(r) && Distinct(r)
    requires forall i | 0 <= i < |r| :: x.expire <= r[i].expire && x != r[i]
    ensures Sorted([x] + r) && Distinct([x] + r)
  {
  }

  lemma {:induction false} WithoutTimerHolds<T(!new)>(s: seq<Item<T>>, t: T)
    requires Sorted(s) && Distinct(s)
    ensures Sorted(WithoutTimer(s, t)) && Distinct(WithoutTimer(s, t))
  {
    if s != [] {
      WithoutTimerHolds(s[1..], t);
      WithoutTimerMembers(s[1..], t);
      var r := WithoutTimer(s[1..], t);
      assert s[0] !in s[1..];
      assert forall x | x in s[1..] :: s[0].expire <= x.expire;
      assert forall i | 0 <= i < |r| :: r[i] in s[1..];
      ConsHolds(s[0], r);
    }
  }

  lemma SortHolds<T(!new)>(s: seq<Item<T>>, x: Item<T>)
    requires Distinct(s) && x !in s
    ensures var r := Sort(s + [x]); Sorted(r) && Distinct(r)
    ensures forall y :: y in Sort(s + [x]) <==> y in s || y == x
  {
    var g, r := s + [x], Sort(s + [x]);
    SortIsStable(g, 0);
    forall y ensures y in r <==> y in s || y == x {
      assert y in multiset(r) <==> y in r;
      assert y in multiset(g) <==> y in g;
    }
    OnceEach(g);
    DistinctIfOnce(r);
  }

  lemma {:induction false} OnceEach<T(!new)>(s: seq<Item<T>>)
    requires Distinct(s)
    ensures forall x :: multiset(s)[x] <= 1
  {
    if s != [] {
      OnceEach(s[1..]);
      assert s == [s[0]] + s[1..] && s[0] !in s[1..];
    }
  }

  lemma DistinctIfOnce<T(!new)>(s: seq<Item<T>>)
    requires forall x :: multiset(s)[x] <= 1
    ensures Distinct(s)
  {
    forall i, j | 0 <= i < j < |s| ensures s[i] != s[j] {
      assert s == s[..i] + [s[i]] + s[i + 1..j] + [s[j]] + s[j + 1..];
      assert multiset(s)[s[i]] >= if s[i] == s[j] then 2 else 1;
    }
  }

  ghost predicate Known<T>(live: set<Item<T>>, added: set<T>) {
    forall x | x in live :: x.timer in added
  }

  lemma DuePrefixMembers<T(!new)>(s: seq<Item<T>>, now: int, x: Item<T>)
    requires Sorted(s)
    ensures x in s[..DueCount(s, now)] <==> x in s && x.expire <= now
    ensures x in s[DueCount(s, now)..] <==> x in s && now < x.expire
  {
    var k := DueCount(s, now);
    DuePrefixIsDue(s, now);
    if x in s {
      var i :| 0 <= i < |s| && s[i] == x;
      assert if i < k then s[..k][i] == x else s[k..][i - k] == x;
    }
  }

  lemma ListTickHolds<T(!new)>(s: seq<Item<T>>, live: set<Item<T>>, now: int)
    requires ListHolds(s, live)
    ensures FiresDue(live, now, s[..DueCount(s, now)])
    ensures ListHolds(s[DueCount(s, now)..], set x | x in live && now < x.expire)
  {
    var k := DueCount(s, now);
    SplitDistinct(s, k);
    forall x
      ensures x in s[..k] <==> x in live && x.expire <= now
      ensures x in s[k..] <==> x in live && now < x.expire
    {
      DuePrefixMembers(s, now, x);
      assert x in s <==> x in live;
    }
    assert Sorted(s[..k]) && Sorted(s[k..]);
  }

  lemma ListStepHolds<T(!new)>(s: seq<Item<T>>, live: set<Item<T>>, op: Op<T>, added: set<T>)
    requires ListHolds(s, live) && Known(live, added) && WellFormed([op], added)
    ensures ListHolds(ListStep(s, op), LiveAfter(live, op))
    ensures op.TickOp? ==> FiresDue(live, op.now, s[..DueCount(s, op.now)])
  {
    match op
    case AddOp(t, e) =>
      var x := Item(t, e);
      assert x !in live;
      SortHolds(s, x);
      forall y ensures y in ListStep(s, op) <==> y in LiveAfter(live, op) {
        assert y in s <==> y in live;
      }
    case DeleteOp(t) =>
      WithoutTimerHolds(s, t);
      WithoutTimerMembers(s, t);
      assert forall y :: y in ListStep(s, op) <==> y in s && y.timer != t;
    case TickOp(now) =>
      ListTickHolds(s, live, now);
  }

  lemma {:induction false} ListIsLegal<T(!new)>(s: seq<Item<T>>, live: set<Item<T>>, ops: seq<Op<T>>, added: set<T>)
    requires ListHolds(s, live) && Known(live, added) && WellFormed(ops, added)
    ensures Legal(live, ops, ListTrace(s, ops))
    decreases |ops|
  {
    if ops != [] {
      var op := ops[0];
      assert WellFormed([op], added);
      ListStepHolds(s, live, op, added);
      ListIsLegal(ListStep(s, op), LiveAfter(live, op), ops[1..], if op.AddOp? then added + {op.timer} else added);
    }
  }

  // ---------- The heap's run ----------

  datatype HeapState<T> = HeapState(heap: seq<Item<T>>, deleted: set<T>)

  function HeapStep<T(==)>(h: HeapState<T>, op: Op<T>): HeapState<T> {
    match op
    case AddOp(t, e) => h.(heap := Push(h.heap, Item(t, e)))
    case DeleteOp(t) => h.(deleted := h.deleted + {t})
    case TickOp(now) => h.(heap := TickHeap(h.heap, h.deleted, now).heap)
  }

  function HeapTrace<T(==)>(h: HeapState<T>, ops: seq<Op<T>>): seq<seq<Item<T>>>
    decreases |ops|
  {
    if ops == [] then []
    else
      var rest := HeapTrace(HeapStep(h, ops[0]), ops[1..]);
      if ops[0].TickOp? then [TickHeap(h.heap, h.deleted, ops[0].now).fired] + rest else rest
  }

  /** The heap holds the live timers and some deleted ones. */
  ghost predicate HeapHolds<T>(h: HeapState<T>, live: set<Item<T>>, added: set<T>) {
    && Ordered(h.heap) && DistinctTimers(h.heap) && Live(h.heap, h.deleted) == live
    && h.deleted <= added && forall x | x in h.heap :: x.timer in added
  }

  lemma HeapStepHolds<T(!new)>(h: HeapState<T>, live: set<Item<T>>, op: Op<T>, added: set<T>)
    requires HeapHolds(h, live, added) && WellFormed([op], added)
    ensures HeapHolds(HeapStep(h, op), LiveAfter(live, op), if op.AddOp? then added + {op.timer} else added)
    ensures op.TickOp? ==> FiresDue(live, op.now, TickHeap(h.heap, h.deleted, op.now).fired)
  {
    match op
    case AddOp(t, e) => PushMembers(h.heap, Item(t, e));
    case DeleteOp(t) =>
    case TickOp(now) =>
      TickFiresDue(h.heap, h.deleted, now);
      TickKeepsLater(h.heap, h.deleted, now);
  }

  lemma {:induction false} HeapIsLegal<T(!new)>(h: HeapState<T>, live: set<Item<T>>, ops: seq<Op<T>>, added: set<T>)
    requires HeapHolds(h, live, added) && WellFormed(ops, added)
    ensures Legal(live, ops, HeapTrace(h, ops))
    decreases |ops|
  {
    if ops != [] {
      var op := ops[0];
      assert WellFormed([op], added);
      HeapStepHolds(h, live, op, added);
      HeapIsLegal(HeapStep(h, op), LiveAfter(live, op), ops[1..], if op.AddOp? then added + {op.timer} else added);
    }
  }

  // ---------- Legal traces agree ----------

  function Expiries<T>(s: seq<Item<T>>): (r: seq<int>)
    ensures |r| == |s|
  {
    seq(|s|, i requires 0 <= i < |s| => s[i].expire)
  }

  /** Two rounds fire the same timers, and differ at most in the order among equal expiries. */
  ghost predicate SameRound<T>(f: seq<Item<T>>, g: seq<Item<T>>) {
    multiset(f) == multiset(g) && Expiries(f) == Expiries(g)
  }

  lemma TakeOut<T(!new)>(left: seq<T>, x: T, right: seq<T>)
    ensures multiset(left + [x] + right) == multiset(left + right) + multiset{x}
  {
  }

  lemma Cancel<T(!new)>(a: multiset<T>, b: multiset<T>, x: T)
    requires a + multiset{x} == b + multiset{x}
    ensures a == b
  {
    assert a == (a + multiset{x}) - multiset{x};
    assert b == (b + multiset{x}) - multiset{x};
  }

  lemma TakeItem<T(!new)>(g: seq<Item<T>>, x: Item<T>) returns (rest: seq<Item<T>>)
    requires x in multiset(g)
    ensures multiset(g) == multiset(rest) + multiset{x} && |rest| < |g|
    ensures multiset(Expiries(g)) == multiset(Expiries(rest)) + multiset{x.expire}
  {
    assert x in g;
    var k :| 0 <= k < |g| && g[k] == x;
    rest := g[..k] + g[k + 1..];
    assert g == g[..k] + [x] + g[k + 1..];
    TakeOut(g[..k], x, g[k + 1..]);
    assert Expiries(g) == Expiries(g[..k]) + [x.expire] + Expiries(g[k + 1..]);
    assert Expiries(rest) == Expiries(g[..k]) + Expiries(g[k + 1..]);
    TakeOut(Expiries(g[..k]), x.expire, Expiries(g[k + 1..]));
  }

  lemma {:induction false} PermutedExpiries<T(!new)>(f: seq<Item<T>>, g: seq<Item<T>>)
    requires multiset(f) == multiset(g)
    ensures multiset(Expiries(f)) == multiset(Expiries(g))
    decreases |f|
  {
    if f == [] {
      assert |multiset(g)| == 0;
    } else {
      assert f[0] in multiset(f);
      var f' := TakeItem(f, f[0]);
      var g' := TakeItem(g, f[0]);
      Cancel(multiset(f'), multiset(g'), f[0]);
      PermutedExpiries(f', g');
    }
  }

  ghost predicate Increasing(a: seq<int>) {
    forall i, j | 0 <= i < j < |a| :: a[i] <= a[j]
  }

  lemma LastIsLargest(a: seq<int>, b: seq<int>)
    requires Increasing(a) && Increasing(b) && multiset(a) == multiset(b) && b != []
    ensures a != [] && b[|b| - 1] <= a[|a| - 1]
  {
    assert b[|b| - 1] in multiset(b);
    assert b[|b| - 1] in a;
  }

  lemma SplitLast(a: seq<int>)
    requires a != []
    ensures a == a[..|a| - 1] + [a[|a| - 1]]
    ensures multiset(a) == multiset(a[..|a| - 1]) + multiset{a[|a| - 1]}
    ensures Increasing(a) ==> Increasing(a[..|a| - 1])
  {
    assert a == a[..|a| - 1] + [a[|a| - 1]];
  }

  lemma {:induction false} SortedIntsAgree(a: seq<int>, b: seq<int>)
    requires Increasing(a) && Increasing(b) && multiset(a) == multiset(b)
    ensures a == b
    decreases |a|
  {
    if a == [] {
      assert |multiset(b)| == 0;
    } else {
      LastIsLargest(b, a);
      LastIsLargest(a, b);
      SplitLast(a);
      SplitLast(b);
      Cancel(multiset(a[..|a| - 1]), multiset(b[..|b| - 1]), a[|a| - 1]);
      SortedIntsAgree(a[..|a| - 1], b[..|b| - 1]);
    }
  }

  lemma DueRoundsAgree<T(!new)>(live: set<Item<T>>, now: int, f: seq<Item<T>>, g: seq<Item<T>>)
    requires FiresDue(live, now, f) && FiresDue(live, now, g)
    ensures SameRound(f, g)
  {
    OnceEach(f);
    OnceEach(g);
    forall x ensures multiset(f)[x] == multiset(g)[x] {
      assert x in multiset(f) <==> x in f;
      assert x in multiset(g) <==> x in g;
    }
    PermutedExpiries(f, g);
    SortedIntsAgree(Expiries(f), Expiries(g));
  }

  /** Any two legal traces of a run agree at every tick. */
  lemma {:induction false} LegalTracesAgree<T(!new)>(live: set<Item<T>>, ops: seq<Op<T>>,
                                                     a: seq<seq<Item<T>>>, b: seq<seq<Item<T>>>)
    requires Legal(live, ops, a) && Legal(live, ops, b)
    ensures |a| == |b| && forall i | 0 <= i < |a| :: SameRound(a[i], b[i])
    decreases |ops|
  {
    if ops != [] {
      var live' := LiveAfter(live, ops[0]);
      if ops[0].TickOp? {
        DueRoundsAgree(live, ops[0].now, a[0], b[0]);
        LegalTracesAgree(live', ops[1..], a[1..], b[1..]);
        forall i | 0 <= i < |a| ensures SameRound(a[i], b[i]) {
          if i > 0 {
            assert SameRound(a[1..][i - 1], b[1..][i - 1]);
          }
        }
      } else {
        LegalTracesAgree(live', ops[1..], a, b);
      }
    }
  }

  /** The sorted list and the lazy-deletion heap fire the same timers at every tick. */
  lemma ListAndHeapAgree<T(!new)>(ops: seq<Op<T>>)
    requires WellFormed(ops, {})
    ensures var a, b := ListTrace([], ops), HeapTrace(HeapState([], {}), ops);
            |a| == |b| && forall i | 0 <= i < |a| :: SameRound(a[i], b[i])
  {
    ListIsLegal([], {}, ops, {});
    HeapIsLegal(HeapState([], {}), {}, ops, {});
    LegalTracesAgree({}, ops, ListTrace([], ops), HeapTrace(HeapState([], {}), ops));
  }
}
