/** The ascending timer list: every change re-sorts it with a stable sort, and a tick
    takes the due timers off its front. */
module TimerList {
  import opened Lists

  datatype Item<T> = Item(timer: T, expire: int)

  predicate Sorted<T>(s: seq<Item<T>>) {
    forall i, j | 0 <= i < j < |s| :: s[i].expire <= s[j].expire
  }

  // ---------- Stable sorting ----------

  /** `x` goes behind every item that is not later. */
  function Insert<T>(x: Item<T>, s: seq<Item<T>>): (r: seq<Item<T>>)
    ensures |r| == |s| + 1
  {
    if s == [] || x.expire < s[0].expire then [x] + s else [s[0]] + Insert(x, s[1..])
  }

  /** Inserts the items one by one, from the left. */
  function Sort<T>(s: seq<Item<T>>): (r: seq<Item<T>>)
    ensures |r| == |s|
  {
    if s == [] then [] else Insert(s[|s| - 1], Sort(s[..|s| - 1]))
  }

  /** The items due at exactly `e`, in order. */
  function Class<T>(s: seq<Item<T>>, e: int): seq<Item<T>> {
    if s == [] then []
    else if s[0].expire == e then [s[0]] + Class(s[1..], e)
    else Class(s[1..], e)
  }

  lemma {:induction false} ClassConcat<T>(a: seq<Item<T>>, b: seq<Item<T>>, e: int)
    ensures Class(a + b, e) == Class(a, e) + Class(b, e)
  {
    if a == [] {
      assert a + b == b;
    } else {
      assert (a + b)[1..] == a[1..] + b;
      ClassConcat(a[1..], b, e);
    }
  }

  /** Where `Insert` puts its item. */
  lemma {:induction false} InsertAt<T>(x: Item<T>, s: seq<Item<T>>, k: nat)
    requires k <= |s| && (forall i | 0 <= i < k :: s[i].expire <= x.expire)
    requires k < |s| ==> x.expire < s[k].expire
    ensures Insert(x, s) == s[..k] + [x] + s[k..]
  {
    if k > 0 {
      InsertAt(x, s[1..], k - 1);
      assert s[..k] == [s[0]] + s[1..][..k - 1] && s[k..] == s[1..][k - 1..];
    }
  }

  lemma InsertPosition<T>(x: Item<T>, s: seq<Item<T>>) returns (k: nat)
    requires Sorted(s)
    ensures k <= |s| && (forall i | 0 <= i < k :: s[i].expire <= x.expire)
    ensures forall i | k <= i < |s| :: x.expire < s[i].expire
  {
    k := 0;
    while k < |s| && s[k].expire <= x.expire
      invariant k <= |s| && forall i | 0 <= i < k :: s[i].expire <= x.expire
    {
      k := k + 1;
    }
  }

  lemma InsertSorted<T>(x: Item<T>, s: seq<Item<T>>)
    requires Sorted(s)
    ensures Sorted(Insert(x, s))
  {
    var k := InsertPosition(x, s);
    InsertAt(x, s, k);
    var r := Insert(x, s);
    forall i, j | 0 <= i < j < |r| ensures r[i].expire <= r[j].expire {
      assert r[i] == if i < k then s[i] else if i == k then x else s[i - 1];
      assert r[j] == if j < k then s[j] else if j == k then x else s[j - 1];
    }
  }

  lemma {:induction false} InsertMembers<T>(x: Item<T>, s: seq<Item<T>>)
    ensures multiset(Insert(x, s)) == multiset(s) + multiset{x}
  {
    if s != [] {
      InsertMembers(x, s[1..]);
      assert s == [s[0]] + s[1..];
    }
  }

  /** Equal expiries keep their order: the new item comes last among them. */
  lemma InsertStable<T>(x: Item<T>, s: seq<Item<T>>, e: int)
    requires Sorted(s)
    ensures Class(Insert(x, s), e) == Class(s + [x], e)
  {
    var k := InsertPosition(x, s);
    InsertAt(x, s, k);
    assert s == s[..k] + s[k..];
    ClassConcat(s[..k] + [x], s[k..], e);
    ClassConcat(s[..k], [x], e);
    ClassConcat(s[..k], s[k..], e);
    ClassConcat(s, [x], e);
    if e == x.expire {
      NoClass(s[k..], e);
    } else {
      assert Class([x], e) == Class([x][1..], e);
    }
  }

  lemma {:induction false} NoClass<T>(s: seq<Item<T>>, e: int)
    requires forall i | 0 <= i < |s| :: s[i].expire != e
    ensures Class(s, e) == []
  {
    if s != [] {
      NoClass(s[1..], e);
    }
  }

  /** What list::sort promises: sorted, a permutation, and equal items in their old order. */
  lemma {:induction false} SortIsStable<T>(s: seq<Item<T>>, e: int)
    ensures Sorted(Sort(s)) && multiset(Sort(s)) == multiset(s) && Class(Sort(s), e) == Class(s, e)
  {
    if s != [] {
      var front, x := s[..|s| - 1], s[|s| - 1];
      assert s == front + [x];
      SortIsStable(front, e);
      InsertSorted(x, Sort(front));
      InsertMembers(x, Sort(front));
      InsertStable(x, Sort(front), e);
      ClassConcat(front, [x], e);
      ClassConcat(Sort(front), [x], e);
    }
  }

  /** ... and only one list meets that promise, so every stable sort gives this one. */
  lemma {:induction false} StableSortIsUnique<T>(a: seq<Item<T>>, b: seq<Item<T>>)
    requires Sorted(a) && Sorted(b) && |a| == |b|
    requires forall e :: Class(a, e) == Class(b, e)
    ensures a == b
  {
    if a != [] {
      FirstOfClass(a, b);
      FirstOfClass(b, a);
      var e := a[0].expire;
      assert Class(a, e)[0] == a[0] && Class(b, e)[0] == b[0];
      forall f ensures Class(a[1..], f) == Class(b[1..], f) {
        assert Class(a, f) == Class(b, f);
        if f == e {
          assert Class(a, f)[1..] == Class(a[1..], f) && Class(b, f)[1..] == Class(b[1..], f);
        }
      }
      StableSortIsUnique(a[1..], b[1..]);
    }
  }

  lemma FirstOfClass<T>(a: seq<Item<T>>, b: seq<Item<T>>)
    requires a != [] && Sorted(b) && forall e :: Class(a, e) == Class(b, e)
    ensures b != [] && b[0].expire <= a[0].expire
  {
    var e := a[0].expire;
    assert Class(a, e) != [] && Class(b, e) != [];
    if forall i | 0 <= i < |b| :: b[i].expire != e {
      NoClass(b, e);
    }
  }

  lemma {:induction false} SortOfSorted<T>(s: seq<Item<T>>)
    requires Sorted(s)
    ensures Sort(s) == s
  {
    forall e ensures Class(Sort(s), e) == Class(s, e) {
      SortIsStable(s, e);
    }
    SortIsStable(s, 0);
    StableSortIsUnique(Sort(s), s);
  }

  /** On a list in order, one item more only goes to its place. */
  lemma SortOfAppended<T>(s: seq<Item<T>>, x: Item<T>)
    requires Sorted(s)
    ensures Sort(s + [x]) == Insert(x, s)
  {
    SortOfSorted(s);
    assert (s + [x])[..|s|] == s;
  }

  // ---------- The due prefix ----------

  /** How many items tick takes off the front. */
  function DueCount<T>(s: seq<Item<T>>, now: int): (k: nat)
    ensures k <= |s| && (forall i | 0 <= i < k :: s[i].expire <= now)
    ensures k < |s| ==> now < s[k].expire
  {
    if s == [] || now < s[0].expire then 0 else 1 + DueCount(s[1..], now)
  }

  /** On a sorted list these are exactly the due items. */
  lemma DuePrefixIsDue<T>(s: seq<Item<T>>, now: int)
    requires Sorted(s)
    ensures forall i | 0 <= i < |s| :: i < DueCount(s, now) <==> s[i].expire <= now
  {
  }

  /** list::remove, on items */
  function WithoutTimer<T(==)>(s: seq<Item<T>>, t: T): seq<Item<T>> {
    if s == [] then []
    else if s[0].timer == t then WithoutTimer(s[1..], t)
    else [s[0]] + WithoutTimer(s[1..], t)
  }

  // ---------- The list object ----------

  class UtilTimer {
    var expire: int
    const sock: int

    constructor (sock: int, expire: int)
      ensures this.sock == sock && this.expire == expire
    {
      this.sock, this.expire := sock, expire;
    }
  }

  ghost function Items(ts: seq<UtilTimer>): (s: seq<Item<UtilTimer>>)
    reads ts
    ensures |s| == |ts|
    ensures forall i | 0 <= i < |s| :: s[i] == Item(ts[i], ts[i].expire)
  {
    seq(|ts|, i requires 0 <= i < |ts| reads ts => Item(ts[i], ts[i].expire))
  }

  /** The list is in order: no timer of `ts` is earlier than one before it. */
  ghost predicate Ascending(ts: seq<UtilTimer>)
    reads ts
  {
    forall i, j | 0 <= i < j < |ts| :: ts[i].expire <= ts[j].expire
  }

  lemma AscendingIsSorted(ts: seq<UtilTimer>)
    requires Ascending(ts)
    ensures Sorted(Items(ts))
  {
    assert forall i | 0 <= i < |ts| :: Items(ts)[i].expire == ts[i].expire;
  }

  lemma {:induction false} RemovedAscending(ts: seq<UtilTimer>, timer: UtilTimer)
    requires Ascending(ts)
    ensures Ascending(Removed(ts, timer))
  {
    if ts != [] {
      var tail := ts[1..];
      RemovedAscending(tail, timer);
      RemovedMembers(tail, timer);
      var rest := Removed(tail, timer);
      forall i | 0 <= i < |rest| ensures ts[0].expire <= rest[i].expire {
        assert rest[i] in tail;
      }
    }
  }

  lemma {:induction false} RemovedIsWithout(ts: seq<UtilTimer>, timer: UtilTimer)
    ensures Items(Removed(ts, timer)) == WithoutTimer(Items(ts), timer)
  {
    if ts != [] {
      RemovedIsWithout(ts[1..], timer);
      assert Items(ts)[1..] == Items(ts[1..]);
      assert Items(Removed(ts, timer)) == if ts[0] == timer then Items(Removed(ts[1..], timer))
                                          else [Items(ts)[0]] + Items(Removed(ts[1..], timer));
    }
  }

  lemma ItemsOfPermutation(a: seq<UtilTimer>, b: seq<UtilTimer>)
    requires multiset(Items(a)) == multiset(Items(b)) && Distinct(b)
    ensures Distinct(a) && forall t :: t in a <==> t in b
  {
    forall t ensures t in a <==> t in b {
      if t in a {
        var i :| 0 <= i < |a| && a[i] == t;
        assert Items(a)[i] in multiset(Items(b));
        var j :| 0 <= j < |b| && Items(b)[j] == Items(a)[i];
      }
      if t in b {
        var i :| 0 <= i < |b| && b[i] == t;
        assert Items(b)[i] in multiset(Items(a));
        var j :| 0 <= j < |a| && Items(a)[j] == Items(b)[i];
      }
    }
    forall i, j | 0 <= i < j < |a| ensures a[i] != a[j] {
      if a[i] == a[j] {
        var x := Items(a)[i];
        assert Items(a) == Items(a)[..i] + [x] + Items(a)[i + 1..j] + [x] + Items(a)[j + 1..];
        assert multiset(Items(b))[x] >= 2;
        NoDoubles(b, x);
      }
    }
  }

  lemma {:induction false} NoDoubles(ts: seq<UtilTimer>, x: Item<UtilTimer>)
    requires Distinct(ts)
    ensures multiset(Items(ts))[x] <= 1
  {
    if ts != [] {
      NoDoubles(ts[1..], x);
      assert Items(ts) == [Items(ts)[0]] + Items(ts[1..]);
      if Items(ts)[0] == x {
        assert forall i | 0 <= i < |ts[1..]| :: ts[1..][i] != ts[0];
        assert x !in Items(ts[1..]);
      }
    }
  }

  lemma SortedTimers(a: seq<UtilTimer>, b: seq<UtilTimer>)
    requires Items(a) == Sort(Items(b))
    ensures Ascending(a)
    ensures Distinct(b) ==> Distinct(a) && forall t :: t in a <==> t in b
  {
    SortIsStable(Items(b), 0);
    assert forall j | 0 <= j < |a| :: Items(a)[j].expire == a[j].expire;
    if Distinct(b) {
      ItemsOfPermutation(a, b);
    }
  }

  lemma ItemsInsert(ts: seq<UtilTimer>, k: nat, t: UtilTimer)
    requires k <= |ts|
    ensures Items(ts[..k] + [t] + ts[k..]) == Items(ts)[..k] + [Item(t, t.expire)] + Items(ts)[k..]
  {
  }

  lemma ItemsSplit(all: seq<UtilTimer>, k: nat)
    requires k <= |all| && Ascending(all)
    ensures Items(all[..k]) == Items(all)[..k] && Items(all[k..]) == Items(all)[k..]
    ensures Sorted(Items(all)) && Ascending(all[k..])
  {
    assert forall i | 0 <= i < |all| :: Items(all)[i].expire == all[i].expire;
  }

  lemma FrontIsEarly(all: seq<UtilTimer>, k: nat, now: int)
    requires k <= |all| && Ascending(all) && (forall i | 0 <= i < k :: all[i].expire <= now)
    requires k < |all| ==> now < all[k].expire
    ensures forall t | t in all[..k] :: t.expire <= now
    ensures forall t | t in all[k..] :: now < t.expire
  {
    assert forall i | k <= i < |all| :: all[k].expire <= all[i].expire;
  }

  /** What tick's split of an ascending list means for the timers. */
  lemma FrontIsDue(all: seq<UtilTimer>, k: nat, now: int)
    requires Distinct(all) && Ascending(all) && k == DueCount(Items(all), now)
    ensures Distinct(all[..k]) && Distinct(all[k..]) && Ascending(all[k..])
    ensures Items(all[..k]) == Items(all)[..k] && Items(all[k..]) == Items(all)[k..]
    ensures forall t :: t in all[..k] <==> t in all && t.expire <= now
    ensures forall t :: t in all[k..] <==> t in all && now < t.expire
  {
    ItemsSplit(all, k);
    assert forall i | 0 <= i < |all| :: Items(all)[i].expire == all[i].expire;
    FrontIsEarly(all, k, now);
    SplitDistinct(all, k);
  }

  class SortTimerList {
    var timeList: seq<UtilTimer>

    constructor ()
      ensures timeList == []
    {
      timeList := [];
    }

    ghost predicate Valid()
      reads this, timeList
    {
      Distinct(timeList) && Ascending(timeList)
    }

    /** The place behind every timer that is not later. */
    method FindPlace(sorted: seq<UtilTimer>, expire: int) returns (k: nat)
      ensures k <= |sorted| && forall j | 0 <= j < k :: sorted[j].expire <= expire
      ensures k < |sorted| ==> expire < sorted[k].expire
    {
      k := 0;
      while k < |sorted| && sorted[k].expire <= expire
        invariant 0 <= k <= |sorted| && forall j | 0 <= j < k :: sorted[j].expire <= expire
      {
        k := k + 1;
      }
    }

    /** One timer more in a sorted list. */
    method InsertTimer(sorted: seq<UtilTimer>, timer: UtilTimer) returns (r: seq<UtilTimer>)
      ensures Items(r) == Insert(Item(timer, timer.expire), Items(sorted))
    {
      var k := FindPlace(sorted, timer.expire);
      InsertAt(Item(timer, timer.expire), Items(sorted), k);
      ItemsInsert(sorted, k, timer);
      r := sorted[..k] + [timer] + sorted[k..];
    }

    /** sort_flush: a stable sort by expiry */
    method SortFlush()
      modifies this
      ensures Items(timeList) == Sort(old(Items(timeList)))
      ensures old(Distinct(timeList)) ==> Valid() && forall t :: t in timeList <==> t in old(timeList)
    {
      ghost var was := Items(timeList);
      var sorted: seq<UtilTimer> := [];
      var i := 0;
      while i < |timeList|
        invariant 0 <= i <= |timeList| && timeList == old(timeList)
        invariant Items(sorted) == Sort(was[..i])
      {
        sorted := InsertTimer(sorted, timeList[i]);
        assert was[..i + 1][..i] == was[..i];
        i := i + 1;
      }
      assert was[..i] == was;
      SortedTimers(sorted, timeList);
      timeList := sorted;
    }

    /** add_timer */
    method AddTimer(timer: UtilTimer)
      requires Distinct(timeList) && timer !in timeList
      modifies this
      ensures Items(timeList) == Sort(old(Items(timeList)) + [Item(timer, timer.expire)])
      ensures old(Ascending(timeList)) ==> Items(timeList) == Insert(Item(timer, timer.expire), old(Items(timeList)))
      ensures Valid() && forall t :: t in timeList <==> t in old(timeList) || t == timer
    {
      if Ascending(timeList) {
        AscendingIsSorted(timeList);
        SortOfAppended(Items(timeList), Item(timer, timer.expire));
      }
      timeList := timeList + [timer];
      assert Items(timeList) == old(Items(timeList)) + [Item(timer, timer.expire)];
      SortFlush();
    }

    /** adjust_timer: called after the timer's expiry was changed in place, so the list may be out of order */
    method AdjustTimer(timer: UtilTimer)
      requires Distinct(timeList)
      modifies this
      ensures Items(timeList)
           == Sort(old(Items(timeList)) + if timer in old(timeList) then [] else [Item(timer, timer.expire)])
      ensures Valid() && forall t :: t in timeList <==> t in old(timeList) || t == timer
    {
      if timer !in timeList {
        timeList := timeList + [timer];
        assert Items(timeList) == old(Items(timeList)) + [Item(timer, timer.expire)];
      } else {
        assert Items(timeList) == Items(timeList) + [];
      }
      SortFlush();
    }

    /** del_timer */
    method DelTimer(timer: UtilTimer)
      requires Valid()
      modifies this
      ensures Valid() && timeList == Removed(old(timeList), timer)
      ensures Items(timeList) == WithoutTimer(old(Items(timeList)), timer)
    {
      RemovedIsWithout(timeList, timer);
      RemovedAscending(timeList, timer);
      RemovedDistinct(timeList, timer);
      timeList := Removed(timeList, timer);
    }

    /** The loop of tick: callbacks from the front while the front is due. */
    method PopDue(now: int) returns (fired: seq<UtilTimer>)
      modifies this
      ensures var k := DueCount(old(Items(timeList)), now);
              fired == old(timeList)[..k] && timeList == old(timeList)[k..]
    {
      fired := [];
      ghost var all, was := timeList, Items(timeList);
      ghost var due := DueCount(was, now);
      assert forall i | 0 <= i < |all| :: was[i].expire == all[i].expire;
      while timeList != []
        invariant |fired| <= due && fired == all[..|fired|] && timeList == all[|fired|..]
        decreases |timeList|
      {
        var item := timeList[0];
        assert item == all[|fired|];
        if now < item.expire {
          break;
        }
        fired := fired + [item];
        timeList := timeList[1..];
      }
    }

    /** tick at the time `now`; `fired` is the order of the callbacks */
    method Tick(now: int) returns (fired: seq<UtilTimer>)
      requires Valid()
      modifies this
      ensures Valid() && Distinct(fired)
      ensures var was := old(Items(timeList)); var k := DueCount(was, now);
              Items(fired) == was[..k] && Items(timeList) == was[k..]
      ensures forall t :: t in fired <==> t in old(timeList) && t.expire <= now
      ensures forall t :: t in timeList <==> t in old(timeList) && now < t.expire
    {
      ghost var k := DueCount(Items(timeList), now);
      FrontIsDue(timeList, k, now);
      fired := PopDue(now);
    }
  }
}
