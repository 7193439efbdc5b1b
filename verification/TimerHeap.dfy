/** The lazy-deletion timer heap: a binary min-heap in an array, whose deleted timers stay
    inside, flagged, until they reach the top. */
module TimerHeap {
  import opened TimerList

  // ---------- The array heap on values ----------

  function Parent(i: nat): nat
    requires i > 0
  {
    (i - 1) / 2
  }

  function Swap<T>(h: seq<T>, i: nat, j: nat): (r: seq<T>)
    requires i < |h| && j < |h|
    ensures |r| == |h| && multiset(r) == multiset(h)
  {
    h[i := h[j]][j := h[i]]
  }

  /** Moves the element at `i` up until its parent is not later. */
  function SiftUp<T>(h: seq<Item<T>>, i: nat): (r: seq<Item<T>>)
    requires i < |h|
    ensures |r| == |h| && multiset(r) == multiset(h)
    decreases i
  {
    if i == 0 || h[Parent(i)].expire <= h[i].expire then h
    else SiftUp(Swap(h, i, Parent(i)), Parent(i))
  }

  /** The earlier child of `i`. */
  function Child<T>(h: seq<Item<T>>, i: nat): (c: nat)
    requires 2 * i + 1 < |h|
    ensures i < c < |h| && Parent(c) == i
  {
    if 2 * i + 2 < |h| && h[2 * i + 2].expire < h[2 * i + 1].expire then 2 * i + 2 else 2 * i + 1
  }

  /** Moves the element at `i` down until no child is earlier. */
  function SiftDown<T>(h: seq<Item<T>>, i: nat): (r: seq<Item<T>>)
    requires i < |h|
    ensures |r| == |h| && multiset(r) == multiset(h)
    decreases |h| - i
  {
    if 2 * i + 1 >= |h| || h[i].expire <= h[Child(h, i)].expire then h
    else SiftDown(Swap(h, i, Child(h, i)), Child(h, i))
  }

  function Push<T>(h: seq<Item<T>>, x: Item<T>): seq<Item<T>> {
    SiftUp(h + [x], |h|)
  }

  function Pop<T>(h: seq<Item<T>>): (r: seq<Item<T>>)
    requires h != []
    ensures |r| == |h| - 1
  {
    var n := |h| - 1;
    if n == 0 then [] else SiftDown(h[0 := h[n]][..n], 0)
  }

  // ---------- Heap order ----------

  ghost predicate Ordered<T>(h: seq<Item<T>>) {
    forall i | 0 < i < |h| :: h[Parent(i)].expire <= h[i].expire
  }

  /** In order but for the element at `k`, which may be too early for its place. */
  ghost predicate OrderedAbove<T>(h: seq<Item<T>>, k: nat) {
    && (forall i | 0 < i < |h| && i != k :: h[Parent(i)].expire <= h[i].expire)
    && (forall i | 0 < i < |h| && Parent(i) == k && k > 0 :: h[Parent(k)].expire <= h[i].expire)
  }

  /** In order but for the element at `k`, which may be too late for its place. */
  ghost predicate OrderedBelow<T>(h: seq<Item<T>>, k: nat) {
    && (forall i | 0 < i < |h| && Parent(i) != k :: h[Parent(i)].expire <= h[i].expire)
    && (forall i | 0 < i < |h| && Parent(i) == k && k > 0 :: h[Parent(k)].expire <= h[i].expire)
  }

  lemma {:induction false} SiftUpOrders<T>(h: seq<Item<T>>, k: nat)
    requires k < |h| && OrderedAbove(h, k)
    ensures Ordered(SiftUp(h, k))
    decreases k
  {
    if k > 0 && h[Parent(k)].expire > h[k].expire {
      var p := Parent(k);
      var g := Swap(h, k, p);
      forall i | 0 < i < |g| && i != p ensures g[Parent(i)].expire <= g[i].expire {
        assert h[Parent(i)].expire <= h[i].expire || i == k;
      }
      forall i | 0 < i < |g| && Parent(i) == p && p > 0 ensures g[Parent(p)].expire <= g[i].expire {
        assert h[Parent(p)].expire <= h[p].expire;
        assert i != k ==> h[p].expire <= h[i].expire;
      }
      SiftUpOrders(g, p);
    }
  }

  lemma {:induction false} SiftDownOrders<T>(h: seq<Item<T>>, k: nat)
    requires k < |h| && OrderedBelow(h, k)
    ensures Ordered(SiftDown(h, k))
    decreases |h| - k
  {
    if 2 * k + 1 < |h| && h[k].expire > h[Child(h, k)].expire {
      var c := Child(h, k);
      var g := Swap(h, k, c);
      forall i | 0 < i < |g| && Parent(i) != c ensures g[Parent(i)].expire <= g[i].expire {
        ChildIsEarlier(h, k, i);
      }
      forall i | 0 < i < |g| && Parent(i) == c && c > 0 ensures g[Parent(c)].expire <= g[i].expire {
        assert h[c].expire <= h[i].expire;
      }
      SiftDownOrders(g, c);
    } else {
      forall i | 0 < i < |h| ensures h[Parent(i)].expire <= h[i].expire {
        ChildIsEarlier(h, k, i);
      }
    }
  }

  lemma ChildIsEarlier<T>(h: seq<Item<T>>, k: nat, i: nat)
    requires 0 < i < |h|
    ensures Parent(i) == k ==> 2 * k + 1 < |h| && h[Child(h, k)].expire <= h[i].expire
  {
  }

  lemma PushKeepsOrder<T>(h: seq<Item<T>>, x: Item<T>)
    requires Ordered(h)
    ensures Ordered(Push(h, x)) && multiset(Push(h, x)) == multiset(h) + multiset{x}
  {
    var g := h + [x];
    forall i | 0 < i < |g| && i != |h| ensures g[Parent(i)].expire <= g[i].expire {
      assert h[Parent(i)].expire <= h[i].expire;
    }
    SiftUpOrders(g, |h|);
  }

  lemma PopKeepsOrder<T>(h: seq<Item<T>>)
    requires h != [] && Ordered(h)
    ensures Ordered(Pop(h))
  {
    var n := |h| - 1;
    if n > 0 {
      var g := h[0 := h[n]][..n];
      forall i | 0 < i < |g| && Parent(i) != 0 ensures g[Parent(i)].expire <= g[i].expire {
        assert h[Parent(i)].expire <= h[i].expire;
      }
      SiftDownOrders(g, 0);
    }
  }

  lemma PopRemovesTop<T>(h: seq<Item<T>>)
    requires h != []
    ensures multiset(h) == multiset(Pop(h)) + multiset{h[0]}
  {
    var n := |h| - 1;
    if n == 0 {
      assert h == [h[0]];
    } else {
      assert h == [h[0]] + h[1..n] + [h[n]];
      assert h[0 := h[n]][..n] == [h[n]] + h[1..n];
    }
  }

  /** The top of a heap is not later than anything in it. */
  lemma {:induction false} TopIsEarliest<T>(h: seq<Item<T>>, i: nat)
    requires i < |h| && Ordered(h)
    ensures h[0].expire <= h[i].expire
    decreases i
  {
    if i > 0 {
      TopIsEarliest(h, Parent(i));
    }
  }

  // ---------- top, pop_timer and tick ----------

  /** Drops deleted timers off the top. */
  function Purge<T(==)>(h: seq<Item<T>>, deleted: set<T>): seq<Item<T>>
    decreases |h|
  {
    if h != [] && h[0].timer in deleted then Purge(Pop(h), deleted) else h
  }

  datatype Ticked<T> = Ticked(fired: seq<Item<T>>, heap: seq<Item<T>>)

  function TickHeap<T(==)>(h: seq<Item<T>>, deleted: set<T>, now: int): Ticked<T>
    decreases |h|
  {
    if h == [] then Ticked([], h)
    else if h[0].timer in deleted then TickHeap(Pop(h), deleted, now)
    else if h[0].expire > now then Ticked([], h)
    else
      var r := TickHeap(Pop(h), deleted, now);
      Ticked([h[0]] + r.fired, r.heap)
  }

  /** The timers of the heap that were not deleted. */
  ghost function Live<T>(h: seq<Item<T>>, deleted: set<T>): set<Item<T>> {
    set x | x in h && x.timer !in deleted
  }

  /** No timer is in the heap twice. */
  ghost predicate DistinctTimers<T>(h: seq<Item<T>>) {
    && (forall x | x in h :: multiset(h)[x] == 1)
    && (forall x, y | x in h && y in h && x.timer == y.timer :: x == y)
  }

  /** What a tick owes: each live timer due by `now` once, earliest first, and nothing else. */
  ghost predicate FiresDue<T>(live: set<Item<T>>, now: int, fired: seq<Item<T>>) {
    && Sorted(fired)
    && (forall i, j | 0 <= i < j < |fired| :: fired[i] != fired[j])
    && (forall x | x in fired :: x in live && x.expire <= now)
    && (forall x | x in live && x.expire <= now :: x in fired)
  }

  lemma PopMultiplicity<T>(h: seq<Item<T>>, x: Item<T>)
    requires h != []
    ensures multiset(h)[x] == multiset(Pop(h))[x] + if x == h[0] then 1 else 0
    ensures x in h <==> x == h[0] || x in Pop(h)
  {
    PopRemovesTop(h);
    assert x in h <==> x in multiset(h);
    assert x in Pop(h) <==> x in multiset(Pop(h));
  }

  lemma PopKeepsDistinct<T>(h: seq<Item<T>>)
    requires h != [] && DistinctTimers(h)
    ensures DistinctTimers(Pop(h)) && forall x | x in Pop(h) :: x in h && x != h[0]
  {
    forall x | x in Pop(h) ensures multiset(Pop(h))[x] == 1 && x in h && x != h[0] {
      PopMultiplicity(h, x);
    }
  }

  /** The top leaves the heap and nothing else does. */
  lemma PopMembers<T>(h: seq<Item<T>>)
    requires h != [] && Ordered(h) && DistinctTimers(h)
    ensures Ordered(Pop(h)) && DistinctTimers(Pop(h))
    ensures forall x :: x in h <==> x == h[0] || x in Pop(h)
    ensures forall x | x in Pop(h) :: x.timer != h[0].timer && h[0].expire <= x.expire
  {
    PopKeepsOrder(h);
    PopKeepsDistinct(h);
    var g := Pop(h);
    forall x ensures x in h <==> x == h[0] || x in g {
      PopMultiplicity(h, x);
    }
    forall x | x in g ensures x.timer != h[0].timer && h[0].expire <= x.expire {
      assert h[0] in h;
      TopIsEarliestMember(h, x);
    }
  }

  lemma TopIsEarliestMember<T>(h: seq<Item<T>>, x: Item<T>)
    requires x in h && Ordered(h)
    ensures h[0].expire <= x.expire
  {
    var i :| 0 <= i < |h| && h[i] == x;
    TopIsEarliest(h, i);
  }

  /** The live timers, when the top leaves. */
  lemma LiveWithoutTop<T>(h: seq<Item<T>>, deleted: set<T>)
    requires h != [] && Ordered(h) && DistinctTimers(h)
    ensures h[0].timer in deleted ==> Live(Pop(h), deleted) == Live(h, deleted)
    ensures h[0].timer !in deleted ==> h[0] in Live(h, deleted) && Live(Pop(h), deleted) == Live(h, deleted) - {h[0]}
  {
    PopMembers(h);
    var a, b := Live(Pop(h), deleted), Live(h, deleted);
    assert h[0] in h && h[0] !in Pop(h);
    assert forall x :: x in a <==> x in b && x != h[0];
  }

  lemma FireTop<T>(x: Item<T>, live: set<Item<T>>, now: int, fired: seq<Item<T>>)
    requires x in live && x.expire <= now && FiresDue(live - {x}, now, fired)
    requires forall y | y in live :: x.expire <= y.expire
    ensures FiresDue(live, now, [x] + fired)
  {
  }

  /** tick fires exactly the live timers due by `now`, once each, earliest first. */
  lemma {:induction false} TickFiresDue<T>(h: seq<Item<T>>, deleted: set<T>, now: int)
    requires Ordered(h) && DistinctTimers(h)
    ensures FiresDue(Live(h, deleted), now, TickHeap(h, deleted, now).fired)
    decreases |h|
  {
    if h != [] {
      forall x | x in h ensures h[0].expire <= x.expire {
        TopIsEarliestMember(h, x);
      }
      if h[0].timer in deleted || h[0].expire <= now {
        PopMembers(h);
        LiveWithoutTop(h, deleted);
        TickFiresDue(Pop(h), deleted, now);
        if h[0].timer !in deleted {
          FireTop(h[0], Live(h, deleted), now, TickHeap(Pop(h), deleted, now).fired);
        }
      }
    }
  }

  /** ... and what it leaves is the later live timers, still in heap order. */
  lemma {:induction false} TickKeepsLater<T>(h: seq<Item<T>>, deleted: set<T>, now: int)
    requires Ordered(h) && DistinctTimers(h)
    ensures var r := TickHeap(h, deleted, now).heap;
            && Ordered(r) && DistinctTimers(r) && (forall x | x in r :: x in h)
            && Live(r, deleted) == set x | x in Live(h, deleted) && now < x.expire
    decreases |h|
  {
    if h != [] {
      if h[0].timer in deleted || h[0].expire <= now {
        PopMembers(h);
        LiveWithoutTop(h, deleted);
        TickKeepsLater(Pop(h), deleted, now);
      } else {
        forall x | x in h ensures now < x.expire {
          TopIsEarliestMember(h, x);
        }
      }
    }
  }

  /** Purging loses no live timer, and then the top is live and earliest, or nothing is live. */
  lemma {:induction false} PurgeFindsEarliest<T>(h: seq<Item<T>>, deleted: set<T>)
    requires Ordered(h) && DistinctTimers(h)
    ensures var r := Purge(h, deleted);
            && Ordered(r) && DistinctTimers(r) && Live(r, deleted) == Live(h, deleted)
            && (r == [] <==> Live(h, deleted) == {})
            && (r != [] ==> r[0] in Live(h, deleted) && forall x | x in Live(h, deleted) :: r[0].expire <= x.expire)
    decreases |h|
  {
    if h != [] && h[0].timer in deleted {
      PopMembers(h);
      LiveWithoutTop(h, deleted);
      PurgeFindsEarliest(Pop(h), deleted);
    } else if h != [] {
      assert h[0] in Live(h, deleted);
      forall x | x in h ensures h[0].expire <= x.expire {
        TopIsEarliestMember(h, x);
      }
    }
  }

  // ---------- The heap object ----------

  class MhTimer {
    const expire: int
    const hasCallback: bool
    var deleted: bool

    constructor (expire: int, hasCallback: bool)
      ensures this.expire == expire && this.hasCallback == hasCallback && !deleted
    {
      this.expire, this.hasCallback, deleted := expire, hasCallback, false;
    }
  }

  /** The timers among `ts` that have a callback to call. */
  function WithCallback(ts: seq<MhTimer>): seq<MhTimer> {
    if ts == [] then []
    else
      var n := |ts| - 1;
      if ts[n].hasCallback then WithCallback(ts[..n]) + [ts[n]] else WithCallback(ts[..n])
  }

  /** Each timer that has a callback is called once for each time it fired, and no other is. */
  lemma {:induction false} CalledOnceEach(ts: seq<MhTimer>, t: MhTimer)
    ensures multiset(WithCallback(ts))[t] == if t.hasCallback then multiset(ts)[t] else 0
  {
    if ts != [] {
      var n := |ts| - 1;
      assert ts == ts[..n] + [ts[n]];
      CalledOnceEach(ts[..n], t);
    }
  }

  /** ... and the calls come in the order of firing. */
  lemma {:induction false} CalledInOrder(a: seq<MhTimer>, b: seq<MhTimer>)
    ensures WithCallback(a + b) == WithCallback(a) + WithCallback(b)
    decreases |b|
  {
    if b == [] {
      assert a + b == a;
    } else {
      var n := |b| - 1;
      assert (a + b)[..|a + b| - 1] == a + b[..n] && (a + b)[|a + b| - 1] == b[n];
      CalledInOrder(a, b[..n]);
    }
  }

  function ItemOf(t: MhTimer): Item<MhTimer> {
    Item(t, t.expire)
  }

  function HeapItems(ts: seq<MhTimer>): (h: seq<Item<MhTimer>>)
    ensures |h| == |ts|
  {
    seq(|ts|, i requires 0 <= i < |ts| => ItemOf(ts[i]))
  }

  lemma HeapItemsSwap(ts: seq<MhTimer>, i: nat, j: nat)
    requires i < |ts| && j < |ts|
    ensures HeapItems(Swap(ts, i, j)) == Swap(HeapItems(ts), i, j)
  {
  }

  lemma ChildOfTimers(ts: seq<MhTimer>, i: nat, c: nat)
    requires 2 * i + 1 < |ts|
    requires c == if 2 * i + 2 < |ts| && ts[2 * i + 2].expire < ts[2 * i + 1].expire then 2 * i + 2 else 2 * i + 1
    ensures c == Child(HeapItems(ts), i)
  {
  }

  lemma SiftDownStep<T>(h: seq<Item<T>>, i: nat, c: nat)
    requires 2 * i + 1 < |h| && c == Child(h, i)
    ensures SiftDown(h, i) == if h[i].expire <= h[c].expire then h else SiftDown(Swap(h, i, c), c)
  {
  }

  lemma HeapItemsMoveLast(ts: seq<MhTimer>)
    requires |ts| > 1
    ensures var n := |ts| - 1; HeapItems(ts[0 := ts[n]][..n]) == HeapItems(ts)[0 := HeapItems(ts)[n]][..n]
  {
  }

  lemma HeapItemsAdd(ts: seq<MhTimer>, t: MhTimer)
    ensures HeapItems(ts + [t]) == HeapItems(ts) + [ItemOf(t)]
  {
  }

  lemma HeapItemsMembers(ts: seq<MhTimer>)
    ensures forall t | t in ts :: ItemOf(t) in HeapItems(ts)
    ensures forall x | x in HeapItems(ts) :: x.timer in ts && x.expire == x.timer.expire
  {
    forall t | t in ts ensures ItemOf(t) in HeapItems(ts) {
      var i :| 0 <= i < |ts| && ts[i] == t;
      assert HeapItems(ts)[i] == ItemOf(t);
    }
  }

  lemma PushMembers<T>(h: seq<Item<T>>, x: Item<T>)
    requires Ordered(h) && DistinctTimers(h) && forall y | y in h :: y.timer != x.timer
    ensures Ordered(Push(h, x)) && DistinctTimers(Push(h, x))
    ensures forall y :: y in Push(h, x) <==> y in h || y == x
  {
    PushKeepsOrder(h, x);
    var g := Push(h, x);
    forall y
      ensures multiset(g)[y] == multiset(h)[y] + (if y == x then 1 else 0) && (y in g <==> y in h || y == x)
    {
      assert y in g <==> y in multiset(g);
      assert y in h <==> y in multiset(h);
    }
  }

  lemma Associative<T>(a: seq<T>, b: seq<T>, c: seq<T>)
    ensures a + (b + c) == (a + b) + c
  {
  }

  lemma SameTimers(a: seq<MhTimer>, b: seq<MhTimer>)
    requires forall x | x in HeapItems(a) :: x in HeapItems(b)
    ensures forall t | t in a :: t in b
  {
    HeapItemsMembers(a);
    HeapItemsMembers(b);
  }

  /** The heap after add_timer. */
  lemma AddedTimers(was: seq<MhTimer>, heap: seq<MhTimer>, t: MhTimer)
    requires Ordered(HeapItems(was)) && DistinctTimers(HeapItems(was)) && t !in was
    requires HeapItems(heap) == Push(HeapItems(was), ItemOf(t))
    ensures Ordered(HeapItems(heap)) && DistinctTimers(HeapItems(heap))
    ensures forall u | u in heap :: u in was || u == t
    ensures forall x :: x in HeapItems(heap) <==> x in HeapItems(was) || x == ItemOf(t)
  {
    HeapItemsMembers(was);
    PushMembers(HeapItems(was), ItemOf(t));
    HeapItemsMembers(heap);
  }

  lemma AddedIsLive(was: seq<MhTimer>, heap: seq<MhTimer>, t: MhTimer, gone: set<MhTimer>)
    requires forall x :: x in HeapItems(heap) <==> x in HeapItems(was) || x == ItemOf(t)
    ensures Live(HeapItems(heap), gone)
         == if t in gone then Live(HeapItems(was), gone) else Live(HeapItems(was), gone) + {ItemOf(t)}
  {
  }

  class MinHeapTimer {
    var heap: seq<MhTimer>
    ghost var gone: set<MhTimer>

    /** A heap of distinct timers; `gone` are those that were passed to del_timer. */
    ghost predicate Valid()
      reads this, heap
    {
      && Ordered(HeapItems(heap)) && DistinctTimers(HeapItems(heap))
      && forall t | t in heap :: t.deleted <==> t in gone
    }

    /** The timers a user of the heap believes to be in it. */
    ghost function LiveTimers(): set<Item<MhTimer>>
      reads this
    {
      Live(HeapItems(heap), gone)
    }

    constructor ()
      ensures Valid() && heap == [] && gone == {}
    {
      heap, gone := [], {};
    }

    /** The sift-up of priority_queue::push. */
    method Up(start: nat)
      requires start < |heap|
      modifies this`heap
      ensures HeapItems(heap) == SiftUp(old(HeapItems(heap)), start)
    {
      var i: nat := start;
      ghost var goal := SiftUp(HeapItems(heap), start);
      while i > 0 && heap[i].expire < heap[Parent(i)].expire
        invariant i < |heap| && SiftUp(HeapItems(heap), i) == goal
      {
        var p := Parent(i);
        HeapItemsSwap(heap, i, p);
        heap := Swap(heap, i, p);
        i := p;
      }
    }

    /** One level of the sift-down: down to `c`, unless no child is earlier. */
    method DownOne(i: nat) returns (done: bool, c: nat)
      requires 2 * i + 1 < |heap|
      modifies this`heap
      ensures |heap| == old(|heap|) && i < c < |heap|
      ensures SiftDown(old(HeapItems(heap)), i) == if done then HeapItems(heap) else SiftDown(HeapItems(heap), c)
    {
      c := 2 * i + 1;
      if c + 1 < |heap| && heap[c + 1].expire < heap[c].expire {
        c := c + 1;
      }
      ChildOfTimers(heap, i, c);
      SiftDownStep(HeapItems(heap), i, c);
      done := heap[i].expire <= heap[c].expire;
      if !done {
        HeapItemsSwap(heap, i, c);
        heap := Swap(heap, i, c);
      }
    }

    /** The sift-down of priority_queue::pop. */
    method Down(start: nat)
      requires start < |heap|
      modifies this`heap
      ensures HeapItems(heap) == SiftDown(old(HeapItems(heap)), start)
    {
      var i: nat := start;
      var done := false;
      ghost var goal := SiftDown(HeapItems(heap), start);
      while 2 * i + 1 < |heap| && !done
        invariant i < |heap|
        invariant goal == if done then HeapItems(heap) else SiftDown(HeapItems(heap), i)
        decreases |heap| - i, !done
      {
        var c: nat;
        done, c := DownOne(i);
        if !done {
          i := c;
        }
      }
    }

    method PopRaw()
      requires heap != []
      modifies this`heap
      ensures HeapItems(heap) == Pop(old(HeapItems(heap)))
    {
      var n := |heap| - 1;
      if n == 0 {
        heap := [];
      } else {
        HeapItemsMoveLast(heap);
        heap := heap[0 := heap[n]][..n];
        Down(0);
      }
    }

    /** priority_queue::pop */
    method PopTop()
      requires Valid() && heap != []
      modifies this`heap
      ensures Valid() && HeapItems(heap) == Pop(old(HeapItems(heap)))
    {
      ghost var was := heap;
      PopMembers(HeapItems(was));
      PopRaw();
      SameTimers(heap, was);
    }

    /** priority_queue::push */
    method PushRaw(t: MhTimer)
      modifies this`heap
      ensures HeapItems(heap) == Push(old(HeapItems(heap)), ItemOf(t))
    {
      HeapItemsAdd(heap, t);
      heap := heap + [t];
      Up(|heap| - 1);
    }

    /** add_timer */
    method AddTimer(timer: MhTimer?)
      requires Valid() && (timer != null ==> timer !in heap && (timer.deleted <==> timer in gone))
      modifies this`heap
      ensures Valid()
      ensures HeapItems(heap) == if timer == null then old(HeapItems(heap))
                                 else Push(old(HeapItems(heap)), ItemOf(timer))
      ensures LiveTimers() == if timer == null || timer.deleted then old(LiveTimers())
                              else old(LiveTimers()) + {ItemOf(timer)}
    {
      if timer == null {
        return;
      }
      ghost var was := heap;
      PushRaw(timer);
      AddedTimers(was, heap, timer);
      AddedIsLive(was, heap, timer, gone);
    }

    /** del_timer: the timer is only flagged */
    method DelTimer(timer: MhTimer?)
      requires Valid()
      modifies this`gone, timer
      ensures Valid() && heap == old(heap)
      ensures timer != null ==> timer.deleted && gone == old(gone) + {timer}
      ensures LiveTimers() == if timer == null then old(LiveTimers()) else old(LiveTimers()) - {ItemOf(timer)}
    {
      if timer == null {
        return;
      }
      HeapItemsMembers(heap);
      timer.deleted := true;
      gone := gone + {timer};
    }

    /** The loop that top and pop_timer begin with. */
    method PurgeTop()
      requires Valid()
      modifies this`heap
      ensures Valid() && HeapItems(heap) == Purge(old(HeapItems(heap)), gone)
    {
      while heap != [] && heap[0].deleted
        invariant Valid() && Purge(HeapItems(heap), gone) == Purge(old(HeapItems(heap)), gone)
        decreases |heap|
      {
        assert heap[0] in heap;
        PopTop();
      }
      assert heap != [] ==> heap[0] in heap;
    }

    /** top: an earliest live timer, or NULL iff there is none */
    method Top() returns (timer: MhTimer?)
      requires Valid()
      modifies this`heap
      ensures Valid() && LiveTimers() == old(LiveTimers())
      ensures timer == null <==> LiveTimers() == {}
      ensures timer != null ==> ItemOf(timer) in LiveTimers()
      ensures timer != null ==> forall x | x in LiveTimers() :: timer.expire <= x.expire
    {
      PurgeFindsEarliest(HeapItems(heap), gone);
      PurgeTop();
      timer := if heap == [] then null else heap[0];
    }

    /** pop_timer: removes an earliest live timer, if there is one */
    method PopTimer() returns (ghost popped: MhTimer?)
      requires Valid()
      modifies this`heap
      ensures Valid()
      ensures popped == null <==> old(LiveTimers()) == {}
      ensures popped == null ==> LiveTimers() == {}
      ensures popped != null ==> ItemOf(popped) in old(LiveTimers())
      ensures popped != null ==> forall x | x in old(LiveTimers()) :: popped.expire <= x.expire
      ensures popped != null ==> LiveTimers() == old(LiveTimers()) - {ItemOf(popped)}
    {
      PurgeFindsEarliest(HeapItems(heap), gone);
      PurgeTop();
      popped := null;
      if heap != [] {
        popped := heap[0];
        LiveWithoutTop(HeapItems(heap), gone);
        PopTop();
      }
    }

    /** tick at the time `now`: `fired` are the timers it takes off as due, `called` those of them whose
        callback it calls, in this order */
    method Tick(now: int) returns (fired: seq<MhTimer>, called: seq<MhTimer>)
      requires Valid()
      modifies this`heap
      ensures Valid()
      ensures Ticked(HeapItems(fired), HeapItems(heap)) == TickHeap(old(HeapItems(heap)), gone, now)
      ensures FiresDue(old(LiveTimers()), now, HeapItems(fired))
      ensures LiveTimers() == set x | x in old(LiveTimers()) && now < x.expire
      ensures called == WithCallback(fired)
      ensures forall t | t in fired || t in called ::
                multiset(called)[t] == if t.hasCallback then multiset(fired)[t] else 0
    {
      TickFiresDue(HeapItems(heap), gone, now);
      TickKeepsLater(HeapItems(heap), gone, now);
      fired, called := FireDue(now);
      forall t | t in fired || t in called
        ensures multiset(called)[t] == if t.hasCallback then multiset(fired)[t] else 0
      {
        CalledOnceEach(fired, t);
      }
    }

    /** The loop of tick. */
    method FireDue(now: int) returns (fired: seq<MhTimer>, called: seq<MhTimer>)
      requires Valid()
      modifies this`heap
      ensures Valid()
      ensures Ticked(HeapItems(fired), HeapItems(heap)) == TickHeap(old(HeapItems(heap)), gone, now)
      ensures called == WithCallback(fired)
    {
      fired, called := [], [];
      ghost var goal := TickHeap(HeapItems(heap), gone, now);
      while heap != []
        invariant Valid()
        invariant var r := TickHeap(HeapItems(heap), gone, now); goal == Ticked(HeapItems(fired) + r.fired, r.heap)
        invariant called == WithCallback(fired)
        decreases |heap|
      {
        var v := heap[0];
        assert v in heap;
        if v.deleted {
          PopTop();
          continue;
        }
        if v.expire > now {
          break;
        }
        HeapItemsAdd(fired, v);
        Associative(HeapItems(fired), [ItemOf(v)], TickHeap(Pop(HeapItems(heap)), gone, now).fired);
        assert (fired + [v])[..|fired|] == fired;
        fired := fired + [v];
        if v.hasCallback {
          called := called + [v];
        }
        PopTop();
      }
    }
  }
}
