/** The hashed timing wheel, and the proof that it fires exactly as a plain list of
    countdown counters does. Timers are named by values of type T; callbacks are the
    sequence of timers they were called on. */
module TimingWheel {
  import opened Lists

  // ---------- The wheel on values ----------

  datatype Entry<T> = Entry(timer: T, circle: nat)

  /** `size` slots of `interval` time units each, the cursor at `cur`. */
  datatype Wheel<T> = Wheel(slots: seq<seq<Entry<T>>>, cur: nat, interval: nat) {
    predicate Valid() {
      cur < |slots| && interval > 0
    }
  }

  /** How many ticks a timeout is worth. */
  function TickCount(timeout: nat, interval: nat): (k: nat)
    requires interval > 0
    ensures k >= 1
  {
    if timeout < interval then 1 else timeout / interval
  }

  /** It is the number of whole intervals in the timeout, and at least one. */
  lemma TickCountIs(timeout: nat, interval: nat, k: nat)
    requires interval > 0
    requires IsWorth(k, timeout, interval)
    ensures TickCount(timeout, interval) == k
  {
    if timeout >= interval {
      DivModIs(timeout, k, timeout - k * interval, interval);
    }
  }

  function SlotFor(cur: nat, k: nat, size: nat): (s: nat)
    requires size > 0
    ensures s < size
  {
    (cur + k % size) % size
  }

  function Add<T>(w: Wheel<T>, timer: T, timeout: nat): (r: Wheel<T>)
    requires w.Valid()
    ensures r.Valid() && |r.slots| == |w.slots|
  {
    var k := TickCount(timeout, w.interval);
    var s := SlotFor(w.cur, k, |w.slots|);
    w.(slots := w.slots[s := w.slots[s] + [Entry(timer, k / |w.slots|)]])
  }

  /** list::remove on one slot */
  function Without<T(==)>(slot: seq<Entry<T>>, timer: T): seq<Entry<T>> {
    if slot == [] then []
    else if slot[0].timer == timer then Without(slot[1..], timer)
    else [slot[0]] + Without(slot[1..], timer)
  }

  function Delete<T(==)>(w: Wheel<T>, timer: T): (r: Wheel<T>)
    requires w.Valid()
    ensures r.Valid() && |r.slots| == |w.slots|
  {
    w.(slots := seq(|w.slots|, s requires 0 <= s < |w.slots| => Without(w.slots[s], timer)))
  }

  /** The timers of the served slot whose circles are used up, in list order. */
  function Due<T>(slot: seq<Entry<T>>): seq<T> {
    if slot == [] then []
    else if slot[0].circle == 0 then [slot[0].timer] + Due(slot[1..])
    else Due(slot[1..])
  }

  /** The timers of the served slot that stay, one circle less to go. */
  function Kept<T>(slot: seq<Entry<T>>): seq<Entry<T>> {
    if slot == [] then []
    else if slot[0].circle == 0 then Kept(slot[1..])
    else [slot[0].(circle := slot[0].circle - 1)] + Kept(slot[1..])
  }

  function Tick<T>(w: Wheel<T>): (r: Wheel<T>)
    requires w.Valid()
    ensures r.Valid() && |r.slots| == |w.slots|
  {
    w.(slots := w.slots[w.cur := Kept(w.slots[w.cur])], cur := (w.cur + 1) % |w.slots|)
  }

  // ---------- The naive list of countdown counters ----------

  datatype Counter<T> = Counter(timer: T, left: nat)

  function DropTimer<T(==)>(n: seq<Counter<T>>, timer: T): seq<Counter<T>> {
    if n == [] then []
    else if n[0].timer == timer then DropTimer(n[1..], timer)
    else [n[0]] + DropTimer(n[1..], timer)
  }

  function Zeros<T>(n: seq<Counter<T>>): seq<T> {
    if n == [] then []
    else if n[0].left == 0 then [n[0].timer] + Zeros(n[1..])
    else Zeros(n[1..])
  }

  function CountDown<T>(n: seq<Counter<T>>): seq<Counter<T>> {
    if n == [] then []
    else if n[0].left == 0 then CountDown(n[1..])
    else [n[0].(left := n[0].left - 1)] + CountDown(n[1..])
  }

  // ---------- Runs ----------

  datatype Op<T> = AddOp(timer: T, timeout: nat) | DeleteOp(timer: T) | TickOp

  function WheelStep<T(==)>(w: Wheel<T>, op: Op<T>): (r: Wheel<T>)
    requires w.Valid()
    ensures r.Valid() && |r.slots| == |w.slots|
  {
    match op
    case AddOp(t, timeout) => Add(w, t, timeout)
    case DeleteOp(t) => Delete(w, t)
    case TickOp => Tick(w)
  }

  /** What each tick of the run fires. */
  function WheelTrace<T(==)>(w: Wheel<T>, ops: seq<Op<T>>): seq<seq<T>>
    requires w.Valid()
    decreases |ops|
  {
    if ops == [] then []
    else
      var rest := WheelTrace(WheelStep(w, ops[0]), ops[1..]);
      if ops[0].TickOp? then [Due(w.slots[w.cur])] + rest else rest
  }

  function CounterStep<T(==)>(n: seq<Counter<T>>, op: Op<T>, interval: nat): seq<Counter<T>>
    requires interval > 0
  {
    match op
    case AddOp(t, timeout) => n + [Counter(t, TickCount(timeout, interval))]
    case DeleteOp(t) => DropTimer(n, t)
    case TickOp => CountDown(n)
  }

  function CounterTrace<T(==)>(n: seq<Counter<T>>, ops: seq<Op<T>>, interval: nat): seq<seq<T>>
    requires interval > 0
    decreases |ops|
  {
    if ops == [] then []
    else
      var rest := CounterTrace(CounterStep(n, ops[0], interval), ops[1..], interval);
      if ops[0].TickOp? then [Zeros(n)] + rest else rest
  }

  // ---------- Refinement ----------

  /** How many ticks until the cursor serves slot `s`. */
  function Distance(s: nat, cur: nat, size: nat): (d: nat)
    requires s < size && cur < size
    ensures d < size
  {
    if s >= cur then s - cur else s + size - cur
  }

  /** The counters that a slot at distance `d` stands for, as wheel entries. */
  function At<T>(n: seq<Counter<T>>, d: nat, size: nat): seq<Entry<T>>
    requires size > 0
  {
    if n == [] then []
    else if n[0].left % size == d then [Entry(n[0].timer, n[0].left / size)] + At(n[1..], d, size)
    else At(n[1..], d, size)
  }

  /** Every slot holds, in order, the counters whose remaining ticks are circle * size plus the
      distance of the slot from the cursor. */
  ghost predicate Refines<T>(w: Wheel<T>, n: seq<Counter<T>>) {
    && w.Valid()
    && forall s | 0 <= s < |w.slots| :: w.slots[s] == At(n, Distance(s, w.cur, |w.slots|), |w.slots|)
  }

  lemma {:induction false} AtAppend<T>(n: seq<Counter<T>>, c: Counter<T>, d: nat, size: nat)
    requires size > 0
    ensures At(n + [c], d, size) == At(n, d, size) + if c.left % size == d then [Entry(c.timer, c.left / size)] else []
  {
    if n == [] {
      assert (n + [c])[1..] == [];
    } else {
      assert (n + [c])[1..] == n[1..] + [c];
      AtAppend(n[1..], c, d, size);
    }
  }

  lemma {:induction false} AtDrop<T>(n: seq<Counter<T>>, timer: T, d: nat, size: nat)
    requires size > 0
    ensures At(DropTimer(n, timer), d, size) == Without(At(n, d, size), timer)
  {
    if n != [] {
      AtDrop(n[1..], timer, d, size);
      var rest, drop := At(n[1..], d, size), DropTimer(n[1..], timer);
      assert ([n[0]] + drop)[1..] == drop;
      var e := Entry(n[0].timer, n[0].left / size);
      assert ([e] + rest)[1..] == rest;
    }
  }

  lemma DivModStep(left: nat, size: nat)
    requires left > 0 && size > 0
    ensures left % size != 0 ==> (left - 1) % size == left % size - 1 && (left - 1) / size == left / size
    ensures left % size == 0 ==> (left - 1) % size == size - 1 && (left - 1) / size == left / size - 1
  {
    var q, r := left / size, left % size;
    assert left == q * size + r;
    if r != 0 {
      DivModIs(left - 1, q, r - 1, size);
    } else {
      assert left == (q - 1) * size + size;
      DivModIs(left - 1, q - 1, size - 1, size);
    }
  }

  lemma DivModIs(x: nat, q: int, r: nat, size: nat)
    requires r < size && x == q * size + r
    ensures x / size == q && x % size == r
  {
    var d := x / size - q;
    assert x == (x / size) * size + x % size;
    assert d * size == r - x % size;
    Multiple(d, size);
  }

  lemma Multiple(d: int, size: nat)
    ensures d >= 1 ==> d * size >= size
    ensures d <= -1 ==> d * size <= -(size as int)
  {
  }

  lemma DivModPositive(left: nat, size: nat)
    requires size > 0
    ensures left % size == 0 && left / size == 0 <==> left == 0
  {
    if left == 0 {
      DivModIs(0, 0, 0, size);
    }
    assert left == (left / size) * size + left % size;
  }

  /** After a tick, the counters of the served slot have moved on one circle and stand a full
      turn away; those of every other slot stand one tick nearer. */
  lemma {:induction false} AtCountDown<T>(n: seq<Counter<T>>, d: nat, size: nat)
    requires d < size
    ensures At(CountDown(n), if d == 0 then size - 1 else d - 1, size)
         == if d == 0 then Kept(At(n, 0, size)) else At(n, d, size)
  {
    if n != [] {
      var c, rest, down := n[0], At(n[1..], d, size), CountDown(n[1..]);
      AtCountDown(n[1..], d, size);
      DivModPositive(c.left, size);
      var e := Entry(c.timer, c.left / size);
      assert ([e] + rest)[1..] == rest;
      if c.left > 0 {
        DivModStep(c.left, size);
        var c' := c.(left := c.left - 1);
        assert ([c'] + down)[1..] == down;
      }
    }
  }

  lemma {:induction false} DueIsZeros<T>(n: seq<Counter<T>>, size: nat)
    requires size > 0
    ensures Due(At(n, 0, size)) == Zeros(n)
  {
    if n != [] {
      DueIsZeros(n[1..], size);
      DivModPositive(n[0].left, size);
      var e, rest := Entry(n[0].timer, n[0].left / size), At(n[1..], 0, size);
      assert ([e] + rest)[1..] == rest;
    }
  }

  lemma SlotDistance(cur: nat, k: nat, size: nat)
    requires cur < size
    ensures forall s | 0 <= s < size :: s == SlotFor(cur, k, size) <==> Distance(s, cur, size) == k % size
  {
    var r := k % size;
    if cur + r < size {
      DivModIs(cur + r, 0, cur + r, size);
    } else {
      DivModIs(cur + r, 1, cur + r - size, size);
    }
  }

  /** How many ticks of the cursor go by before a place on the wheel is served with no circle left. */
  function TicksTo(circle: nat, slot: nat, cur: nat, size: nat): nat
    requires slot < size && cur < size
  {
    circle * size + Distance(slot, cur, size)
  }

  /** `k` is the number of whole intervals in the timeout, and one for a shorter timeout. */
  predicate IsWorth(k: nat, timeout: nat, interval: nat) {
    if timeout < interval then k == 1 else k * interval <= timeout < k * interval + interval
  }

  /** circle_num and time_slot encode the tick count, whatever the size of the wheel. */
  lemma PlaceIsWorth(timeout: nat, interval: nat, k: nat, cur: nat, size: nat)
    requires interval > 0 && cur < size && k == TickCount(timeout, interval)
    ensures TicksTo(k / size, SlotFor(cur, k, size), cur, size) == k && IsWorth(k, timeout, interval)
  {
    SlotDistance(cur, k, size);
    assert k == k / size * size + k % size;
    assert timeout >= interval ==> timeout == k * interval + timeout % interval;
  }

  lemma StepRefines<T>(w: Wheel<T>, n: seq<Counter<T>>, op: Op<T>)
    requires Refines(w, n)
    ensures Refines(WheelStep(w, op), CounterStep(n, op, w.interval))
  {
    var size := |w.slots|;
    var w', n' := WheelStep(w, op), CounterStep(n, op, w.interval);
    forall s | 0 <= s < size
      ensures w'.slots[s] == At(n', Distance(s, w'.cur, size), size)
    {
      match op
      case AddOp(t, timeout) =>
        var k := TickCount(timeout, w.interval);
        SlotDistance(w.cur, k, size);
        AtAppend(n, Counter(t, k), Distance(s, w.cur, size), size);
      case DeleteOp(t) =>
        AtDrop(n, t, Distance(s, w.cur, size), size);
      case TickOp =>
        NextCursor(w.cur, size);
        AtCountDown(n, Distance(s, w.cur, size), size);
    }
  }

  lemma NextCursor(cur: nat, size: nat)
    requires cur < size
    ensures (cur + 1) % size == if cur + 1 == size then 0 else cur + 1
  {
    if cur + 1 == size {
      DivModIs(cur + 1, 1, 0, size);
    } else {
      DivModIs(cur + 1, 0, cur + 1, size);
    }
  }

  /** Over every interleaving of add, delete and tick, wheel and list fire the same timers at
      the same ticks in the same order. */
  lemma {:induction false} WheelRefinesCounters<T>(w: Wheel<T>, n: seq<Counter<T>>, ops: seq<Op<T>>)
    requires Refines(w, n)
    ensures WheelTrace(w, ops) == CounterTrace(n, ops, w.interval)
    decreases |ops|
  {
    if ops != [] {
      StepRefines(w, n, ops[0]);
      WheelRefinesCounters(WheelStep(w, ops[0]), CounterStep(n, ops[0], w.interval), ops[1..]);
      DueIsZeros(n, |w.slots|);
    }
  }

  function EmptyWheel<T>(size: nat, interval: nat): (w: Wheel<T>)
    requires size > 0 && interval > 0
    ensures w.Valid() && |w.slots| == size && Refines(w, [])
  {
    Wheel(seq(size, _ => []), 0, interval)
  }

  // ---------- When a timer fires ----------

  function Count<T(==)>(s: seq<T>, timer: T): nat {
    multiset(s)[timer]
  }

  function Ticks<T>(ops: seq<Op<T>>): nat {
    if ops == [] then 0 else (if ops[0].TickOp? then 1 else 0) + Ticks(ops[1..])
  }

  /** No operation of `ops` names the timer. */
  ghost predicate Silent<T>(ops: seq<Op<T>>, timer: T) {
    forall i | 0 <= i < |ops| :: ops[i].TickOp? || ops[i].timer != timer
  }

  function CounterRun<T(==)>(n: seq<Counter<T>>, ops: seq<Op<T>>, interval: nat): seq<Counter<T>>
    requires interval > 0
    decreases |ops|
  {
    if ops == [] then n else CounterRun(CounterStep(n, ops[0], interval), ops[1..], interval)
  }

  /** How many counters of `timer` have exactly `left` ticks to go. */
  function Pending<T(==)>(n: seq<Counter<T>>, timer: T, left: nat): nat {
    if n == [] then 0 else (if n[0] == Counter(timer, left) then 1 else 0) + Pending(n[1..], timer, left)
  }

  lemma {:induction false} PendingAppend<T>(n: seq<Counter<T>>, c: Counter<T>, timer: T, left: nat)
    ensures Pending(n + [c], timer, left) == Pending(n, timer, left) + if c == Counter(timer, left) then 1 else 0
  {
    if n == [] {
      assert (n + [c])[1..] == [];
    } else {
      assert (n + [c])[1..] == n[1..] + [c];
      PendingAppend(n[1..], c, timer, left);
    }
  }

  lemma {:induction false} PendingDrop<T>(n: seq<Counter<T>>, drop: T, timer: T, left: nat)
    ensures Pending(DropTimer(n, drop), timer, left) == if timer == drop then 0 else Pending(n, timer, left)
  {
    if n != [] {
      PendingDrop(n[1..], drop, timer, left);
      var rest := DropTimer(n[1..], drop);
      assert ([n[0]] + rest)[1..] == rest;
    }
  }

  lemma {:induction false} PendingCountDown<T>(n: seq<Counter<T>>, timer: T, left: nat)
    ensures Pending(CountDown(n), timer, left) == Pending(n, timer, left + 1)
    ensures Count(Zeros(n), timer) == Pending(n, timer, 0)
  {
    if n != [] {
      PendingCountDown(n[1..], timer, left);
      var rest := CountDown(n[1..]);
      assert n[0].left > 0 ==> ([n[0].(left := n[0].left - 1)] + rest)[1..] == rest;
    }
  }

  /** A tick later every counter is one nearer; other timers' operations change nothing. */
  lemma PendingStep<T>(n: seq<Counter<T>>, op: Op<T>, timer: T, left: nat, interval: nat)
    requires interval > 0 && (op.TickOp? || op.timer != timer)
    ensures Pending(CounterStep(n, op, interval), timer, left)
         == Pending(n, timer, if op.TickOp? then left + 1 else left)
  {
    match op
    case AddOp(t, timeout) => PendingAppend(n, Counter(t, TickCount(timeout, interval)), timer, left);
    case DeleteOp(t) => PendingDrop(n, t, timer, left);
    case TickOp => PendingCountDown(n, timer, left);
  }

  lemma {:induction false} TraceLength<T>(n: seq<Counter<T>>, ops: seq<Op<T>>, interval: nat)
    requires interval > 0
    ensures |CounterTrace(n, ops, interval)| == Ticks(ops)
    decreases |ops|
  {
    if ops != [] {
      TraceLength(CounterStep(n, ops[0], interval), ops[1..], interval);
    }
  }

  /** While no operation names the timer, tick number j fires it as often as it has counters
      with j ticks to go. */
  lemma {:induction false} SilentTrace<T>(n: seq<Counter<T>>, ops: seq<Op<T>>, timer: T, interval: nat, j: nat)
    requires interval > 0 && Silent(ops, timer) && j < Ticks(ops)
    ensures |CounterTrace(n, ops, interval)| == Ticks(ops)
    ensures Count(CounterTrace(n, ops, interval)[j], timer) == Pending(n, timer, j)
    decreases |ops|
  {
    TraceLength(n, ops, interval);
    var n', rest := CounterStep(n, ops[0], interval), ops[1..];
    assert Silent(rest, timer);
    if ops[0].TickOp? && j == 0 {
      PendingCountDown(n, timer, j);
    } else {
      var i := if ops[0].TickOp? then j - 1 else j;
      SilentTrace(n', rest, timer, interval, i);
      PendingStep(n, ops[0], timer, i, interval);
    }
  }

  /** ... and the run brings every counter nearer by its number of ticks. */
  lemma {:induction false} SilentRun<T>(n: seq<Counter<T>>, ops: seq<Op<T>>, timer: T, interval: nat, j: nat)
    requires interval > 0 && Silent(ops, timer)
    ensures Pending(CounterRun(n, ops, interval), timer, j) == Pending(n, timer, j + Ticks(ops))
    decreases |ops|
  {
    if ops != [] {
      var n', rest := CounterStep(n, ops[0], interval), ops[1..];
      assert Silent(rest, timer);
      SilentRun(n', rest, timer, interval, j);
      PendingStep(n, ops[0], timer, j + Ticks(rest), interval);
    }
  }

  lemma {:induction false} TraceSplits<T>(n: seq<Counter<T>>, a: seq<Op<T>>, b: seq<Op<T>>, interval: nat)
    requires interval > 0
    ensures CounterTrace(n, a + b, interval)
         == CounterTrace(n, a, interval) + CounterTrace(CounterRun(n, a, interval), b, interval)
    decreases |a|
  {
    if a == [] {
      assert a + b == b;
    } else {
      assert (a + b)[1..] == a[1..] + b;
      TraceSplits(CounterStep(n, a[0], interval), a[1..], b, interval);
    }
  }

  /** On the list: a timer added with tick count k fires once, on the (k+1)-th later tick. */
  lemma CounterFiresOnce<T>(before: seq<Op<T>>, timer: T, timeout: nat, after: seq<Op<T>>, interval: nat, j: nat)
    requires interval > 0 && Silent(before, timer) && Silent(after, timer)
    requires j < Ticks(before) + Ticks(after)
    ensures var trace := CounterTrace([], before + ([AddOp(timer, timeout)] + after), interval);
            && |trace| == Ticks(before) + Ticks(after)
            && Count(trace[j], timer) == if j == Ticks(before) + TickCount(timeout, interval) then 1 else 0
  {
    var op, k := AddOp(timer, timeout), TickCount(timeout, interval);
    var tail := [op] + after;
    assert tail[1..] == after;
    var n := CounterRun([], before, interval);
    TraceSplits([], before, tail, interval);
    TraceLength([], before, interval);
    TraceLength(n + [Counter(timer, k)], after, interval);
    if j < Ticks(before) {
      SilentTrace([], before, timer, interval, j);
    } else {
      var i := j - Ticks(before);
      SilentTrace(n + [Counter(timer, k)], after, timer, interval, i);
      PendingAppend(n, Counter(timer, k), timer, i);
      SilentRun([], before, timer, interval, i);
    }
  }

  /** The main theorem on single timers: on a wheel of any size and interval, a timer whose timeout is
      k whole intervals (one, if it is shorter) fires exactly once, on the (k+1)-th later tick. */
  lemma FiresOnce<T>(size: nat, interval: nat, before: seq<Op<T>>, timer: T, timeout: nat, k: nat, after: seq<Op<T>>,
                     j: nat)
    requires size > 0 && interval > 0 && Silent(before, timer) && Silent(after, timer)
    requires if timeout < interval then k == 1 else k * interval <= timeout < k * interval + interval
    requires j < Ticks(before) + Ticks(after)
    ensures var trace := WheelTrace(EmptyWheel(size, interval), before + ([AddOp(timer, timeout)] + after));
            && |trace| == Ticks(before) + Ticks(after)
            && Count(trace[j], timer) == if j == Ticks(before) + k then 1 else 0
  {
    WheelRefinesCounters(EmptyWheel(size, interval), [], before + ([AddOp(timer, timeout)] + after));
    CounterFiresOnce(before, timer, timeout, after, interval, j);
    TickCountIs(timeout, interval, k);
  }

  lemma DeletedIsQuiet<T>(n: seq<Counter<T>>, timer: T, after: seq<Op<T>>, interval: nat, i: nat)
    requires interval > 0 && Silent(after, timer) && i < Ticks(after)
    ensures var trace := CounterTrace(n, [DeleteOp(timer)] + after, interval);
            |trace| == Ticks(after) && Count(trace[i], timer) == 0
  {
    assert ([DeleteOp(timer)] + after)[1..] == after;
    SilentTrace(DropTimer(n, timer), after, timer, interval, i);
    PendingDrop(n, timer, timer, i);
  }

  /** A timer deleted before its tick comes never fires; one deleted later has fired just once. */
  lemma DeletedDoesNotFire<T>(size: nat, interval: nat, before: seq<Op<T>>, timer: T, timeout: nat, k: nat,
                              between: seq<Op<T>>, after: seq<Op<T>>, j: nat)
    requires size > 0 && interval > 0 && Silent(before, timer) && Silent(between, timer) && Silent(after, timer)
    requires if timeout < interval then k == 1 else k * interval <= timeout < k * interval + interval
    requires j < Ticks(before) + Ticks(between) + Ticks(after)
    ensures var ops := before + ([AddOp(timer, timeout)] + between) + ([DeleteOp(timer)] + after);
            var trace := WheelTrace(EmptyWheel(size, interval), ops);
            && |trace| == Ticks(before) + Ticks(between) + Ticks(after)
            && Count(trace[j], timer) == if k < Ticks(between) && j == Ticks(before) + k then 1 else 0
  {
    TickCountIs(timeout, interval, k);
    var head, tail := before + ([AddOp(timer, timeout)] + between), [DeleteOp(timer)] + after;
    WheelRefinesCounters(EmptyWheel(size, interval), [], head + tail);
    var n := CounterRun([], head, interval);
    TraceSplits([], head, tail, interval);
    TicksOfHead(before, AddOp(timer, timeout), between);
    TraceLength([], head, interval);
    assert tail[1..] == after;
    TraceLength(n, tail, interval);
    if j < Ticks(head) {
      CounterFiresOnce(before, timer, timeout, between, interval, j);
    } else {
      DeletedIsQuiet(n, timer, after, interval, j - Ticks(head));
    }
  }

  lemma {:induction false} TicksOfHead<T>(a: seq<Op<T>>, op: Op<T>, b: seq<Op<T>>)
    requires !op.TickOp?
    ensures Ticks(a + ([op] + b)) == Ticks(a) + Ticks(b)
  {
    if a == [] {
      assert a + ([op] + b) == [op] + b && ([op] + b)[1..] == b;
    } else {
      assert (a + ([op] + b))[1..] == a[1..] + ([op] + b);
      TicksOfHead(a[1..], op, b);
    }
  }

  // ---------- The order of timers that are due together ----------

  /** `x` stands before `y`. */
  ghost predicate InOrder<A>(s: seq<A>, x: A, y: A) {
    exists p, q | 0 <= p < q < |s| :: s[p] == x && s[q] == y
  }

  lemma OrderOfParts<A>(a: seq<A>, x: A, b: seq<A>, y: A, c: seq<A>)
    ensures InOrder(a + [x] + b + [y] + c, x, y)
  {
    var s := a + [x] + b + [y] + c;
    assert s[|a|] == x && s[|a| + 1 + |b|] == y;
  }

  lemma PartsOfOrder<A>(s: seq<A>, x: A, y: A) returns (a: seq<A>, b: seq<A>, c: seq<A>)
    requires InOrder(s, x, y)
    ensures s == a + [x] + b + [y] + c
  {
    var p, q :| 0 <= p < q < |s| && s[p] == x && s[q] == y;
    a, b, c := s[..p], s[p + 1..q], s[q + 1..];
  }

  lemma {:induction false} DropConcat<T>(a: seq<Counter<T>>, b: seq<Counter<T>>, timer: T)
    ensures DropTimer(a + b, timer) == DropTimer(a, timer) + DropTimer(b, timer)
  {
    if a == [] {
      assert a + b == b;
    } else {
      assert (a + b)[1..] == a[1..] + b;
      DropConcat(a[1..], b, timer);
    }
  }

  lemma {:induction false} CountDownConcat<T>(a: seq<Counter<T>>, b: seq<Counter<T>>)
    ensures CountDown(a + b) == CountDown(a) + CountDown(b)
  {
    if a == [] {
      assert a + b == b;
    } else {
      assert (a + b)[1..] == a[1..] + b;
      CountDownConcat(a[1..], b);
    }
  }

  lemma {:induction false} ZerosConcat<T>(a: seq<Counter<T>>, b: seq<Counter<T>>)
    ensures Zeros(a + b) == Zeros(a) + Zeros(b)
  {
    if a == [] {
      assert a + b == b;
    } else {
      assert (a + b)[1..] == a[1..] + b;
      ZerosConcat(a[1..], b);
    }
  }

  lemma OneCounter<T>(c: Counter<T>, timer: T)
    ensures DropTimer([c], timer) == if c.timer == timer then [] else [c]
    ensures CountDown([c]) == if c.left == 0 then [] else [c.(left := c.left - 1)]
    ensures Zeros([c]) == if c.left == 0 then [c.timer] else []
  {
    assert [c][1..] == [];
  }

  lemma DropKeepsOrder<T>(n: seq<Counter<T>>, timer: T, x: Counter<T>, y: Counter<T>)
    requires InOrder(n, x, y) && x.timer != timer && y.timer != timer
    ensures InOrder(DropTimer(n, timer), x, y)
  {
    var a, b, c := PartsOfOrder(n, x, y);
    DropConcat(a + [x] + b + [y], c, timer);
    DropConcat(a + [x] + b, [y], timer);
    DropConcat(a + [x], b, timer);
    DropConcat(a, [x], timer);
    OneCounter(x, timer);
    OneCounter(y, timer);
    OrderOfParts(DropTimer(a, timer), x, DropTimer(b, timer), y, DropTimer(c, timer));
  }

  lemma CountDownKeepsOrder<T>(n: seq<Counter<T>>, x: Counter<T>, y: Counter<T>)
    requires InOrder(n, x, y) && x.left > 0 && y.left > 0
    ensures InOrder(CountDown(n), x.(left := x.left - 1), y.(left := y.left - 1))
  {
    var a, b, c := PartsOfOrder(n, x, y);
    CountDownConcat(a + [x] + b + [y], c);
    CountDownConcat(a + [x] + b, [y]);
    CountDownConcat(a + [x], b);
    CountDownConcat(a, [x]);
    OneCounter(x, x.timer);
    OneCounter(y, y.timer);
    OrderOfParts(CountDown(a), x.(left := x.left - 1), CountDown(b), y.(left := y.left - 1), CountDown(c));
  }

  lemma ZerosKeepOrder<T>(n: seq<Counter<T>>, x: T, y: T)
    requires InOrder(n, Counter(x, 0), Counter(y, 0))
    ensures InOrder(Zeros(n), x, y)
  {
    var a, b, c := PartsOfOrder(n, Counter(x, 0), Counter(y, 0));
    ZerosConcat(a + [Counter(x, 0)] + b + [Counter(y, 0)], c);
    ZerosConcat(a + [Counter(x, 0)] + b, [Counter(y, 0)]);
    ZerosConcat(a + [Counter(x, 0)], b);
    ZerosConcat(a, [Counter(x, 0)]);
    OneCounter(Counter(x, 0), x);
    OneCounter(Counter(y, 0), y);
    OrderOfParts(Zeros(a), x, Zeros(b), y, Zeros(c));
  }

  lemma MoreKeepsOrder<A>(s: seq<A>, z: A, x: A, y: A)
    requires InOrder(s, x, y)
    ensures InOrder(s + [z], x, y)
  {
    var p, q :| 0 <= p < q < |s| && s[p] == x && s[q] == y;
    assert (s + [z])[p] == x && (s + [z])[q] == y;
  }

  /** Two counters with the same number of ticks to go fire at the same tick, in the list's order. */
  lemma {:induction false} OrderIsKept<T>(n: seq<Counter<T>>, ops: seq<Op<T>>, x: T, y: T, left: nat, interval: nat)
    requires interval > 0 && Silent(ops, x) && Silent(ops, y) && left < Ticks(ops)
    requires InOrder(n, Counter(x, left), Counter(y, left))
    ensures |CounterTrace(n, ops, interval)| == Ticks(ops)
    ensures InOrder(CounterTrace(n, ops, interval)[left], x, y)
    decreases |ops|
  {
    TraceLength(n, ops, interval);
    var op, rest, cx, cy := ops[0], ops[1..], Counter(x, left), Counter(y, left);
    assert Silent(rest, x) && Silent(rest, y);
    match op
    case AddOp(t, timeout) =>
      MoreKeepsOrder(n, Counter(t, TickCount(timeout, interval)), cx, cy);
      OrderIsKept(CounterStep(n, op, interval), rest, x, y, left, interval);
    case DeleteOp(t) =>
      DropKeepsOrder(n, t, cx, cy);
      OrderIsKept(CounterStep(n, op, interval), rest, x, y, left, interval);
    case TickOp =>
      if left == 0 {
        ZerosKeepOrder(n, x, y);
      } else {
        CountDownKeepsOrder(n, cx, cy);
        OrderIsKept(CounterStep(n, op, interval), rest, x, y, left - 1, interval);
      }
  }

  /** While `x` is pending and nobody names it, the list holds its counter. */
  lemma {:induction false} PendingIsThere<T>(n: seq<Counter<T>>, timer: T, left: nat)
    requires Pending(n, timer, left) > 0
    ensures Counter(timer, left) in n
  {
    if n[0] != Counter(timer, left) {
      PendingIsThere(n[1..], timer, left);
    }
  }

  /** The same on the wheel: of two timers that are due at the same tick, the one added first fires first. */
  lemma DueTogetherFireInOrder<T>(size: nat, interval: nat, before: seq<Op<T>>, x: T, xTimeout: nat, xk: nat,
                                  between: seq<Op<T>>, y: T, yTimeout: nat, yk: nat, after: seq<Op<T>>)
    requires size > 0 && interval > 0 && x != y
    requires Silent(before, x) && Silent(between, x) && Silent(after, x) && Silent(after, y)
    requires if xTimeout < interval then xk == 1 else xk * interval <= xTimeout < xk * interval + interval
    requires if yTimeout < interval then yk == 1 else yk * interval <= yTimeout < yk * interval + interval
    requires xk == Ticks(between) + yk && yk < Ticks(after)
    ensures var head := before + ([AddOp(x, xTimeout)] + between);
            var trace := WheelTrace(EmptyWheel(size, interval), head + ([AddOp(y, yTimeout)] + after));
            && |trace| == Ticks(before) + Ticks(between) + Ticks(after)
            && InOrder(trace[Ticks(before) + Ticks(between) + yk], x, y)
  {
    var head, tail := before + ([AddOp(x, xTimeout)] + between), [AddOp(y, yTimeout)] + after;
    WheelRefinesCounters(EmptyWheel(size, interval), [], head + tail);
    TicksOfHead(before, AddOp(x, xTimeout), between);
    TraceSplits([], head, tail, interval);
    TraceLength([], head, interval);
    PendingAfter(before, x, xTimeout, xk, between, interval, yk);
    AddedBehind(CounterRun([], head, interval), x, y, yTimeout, yk, after, interval);
  }

  /** `y` is added to a list that holds a counter of `x` with as many ticks to go. */
  lemma AddedBehind<T>(n: seq<Counter<T>>, x: T, y: T, timeout: nat, k: nat, after: seq<Op<T>>, interval: nat)
    requires interval > 0 && Silent(after, x) && Silent(after, y) && Pending(n, x, k) > 0 && k < Ticks(after)
    requires if timeout < interval then k == 1 else k * interval <= timeout < k * interval + interval
    ensures var trace := CounterTrace(n, [AddOp(y, timeout)] + after, interval);
            |trace| == Ticks(after) && InOrder(trace[k], x, y)
  {
    var cy := Counter(y, k);
    assert ([AddOp(y, timeout)] + after)[1..] == after;
    TickCountIs(timeout, interval, k);
    PendingIsThere(n, x, k);
    var p :| 0 <= p < |n| && n[p] == Counter(x, k);
    assert (n + [cy])[p] == Counter(x, k) && (n + [cy])[|n|] == cy;
    OrderIsKept(n + [cy], after, x, y, k, interval);
  }

  lemma {:induction false} RunSplits<T>(n: seq<Counter<T>>, a: seq<Op<T>>, b: seq<Op<T>>, interval: nat)
    requires interval > 0
    ensures CounterRun(n, a + b, interval) == CounterRun(CounterRun(n, a, interval), b, interval)
    decreases |a|
  {
    if a == [] {
      assert a + b == b;
    } else {
      assert (a + b)[1..] == a[1..] + b;
      RunSplits(CounterStep(n, a[0], interval), a[1..], b, interval);
    }
  }

  lemma PendingAfter<T>(before: seq<Op<T>>, x: T, timeout: nat, k: nat, between: seq<Op<T>>, interval: nat, left: nat)
    requires interval > 0 && Silent(between, x)
    requires if timeout < interval then k == 1 else k * interval <= timeout < k * interval + interval
    requires k == Ticks(between) + left
    ensures Pending(CounterRun([], before + ([AddOp(x, timeout)] + between), interval), x, left) > 0
  {
    var tail := [AddOp(x, timeout)] + between;
    RunSplits([], before, tail, interval);
    assert tail[1..] == between;
    TickCountIs(timeout, interval, k);
    var n := CounterRun([], before, interval);
    SilentRun(n + [Counter(x, k)], between, x, interval, left);
    PendingAppend(n, Counter(x, k), x, k);
  }

  // ---------- The wheel as an object ----------

  class TwTimer {
    var circleNum: nat
    const timeSlot: nat

    constructor (circle: nat, slot: nat)
      ensures circleNum == circle && timeSlot == slot
    {
      circleNum, timeSlot := circle, slot;
    }
  }

  ghost function Entries(ts: seq<TwTimer>): (es: seq<Entry<TwTimer>>)
    reads ts
    ensures |es| == |ts|
  {
    seq(|ts|, i requires 0 <= i < |ts| reads ts => Entry(ts[i], ts[i].circleNum))
  }

  lemma {:induction false} RemovedIsWithout(ts: seq<TwTimer>, timer: TwTimer)
    ensures Entries(Removed(ts, timer)) == Without(Entries(ts), timer)
  {
    if ts != [] {
      RemovedIsWithout(ts[1..], timer);
      assert Entries(ts)[1..] == Entries(ts[1..]);
      assert Entries(Removed(ts, timer)) == if ts[0] == timer then Entries(Removed(ts[1..], timer))
                                            else [Entries(ts)[0]] + Entries(Removed(ts[1..], timer));
    }
  }

  /** A slot's list after its element `it` was served. */
  function Served<T>(slot: seq<Entry<T>>, it: nat): seq<Entry<T>>
    requires it < |slot|
  {
    if slot[it].circle == 0 then slot[..it] + slot[it + 1..]
    else slot[it := slot[it].(circle := slot[it].circle - 1)]
  }

  lemma ServeOne<T>(slot: seq<Entry<T>>, it: nat)
    requires it < |slot|
    ensures var due, now := slot[it].circle == 0, Served(slot, it);
            var it' := if due then it else it + 1;
            && slot[..it] + Kept(slot[it..]) == now[..it'] + Kept(now[it'..])
            && Due(slot[it..]) == (if due then [slot[it].timer] else []) + Due(now[it'..])
  {
    var rest := slot[it + 1..];
    assert slot[it..][1..] == rest;
    if slot[it].circle == 0 {
      assert Served(slot, it)[it..] == rest && Served(slot, it)[..it] == slot[..it];
    } else {
      assert Served(slot, it)[it + 1..] == rest;
    }
  }

  class TimeWheel {
    const size: nat
    const interval: nat
    const slots: array<seq<TwTimer>>
    var curSlot: nat
    ghost var repr: set<TwTimer>

    ghost predicate Valid()
      reads this, slots, repr
    {
      && slots.Length == size && curSlot < size && interval > 0
      && (forall s | 0 <= s < size :: Distinct(slots[s]))
      && (forall s, t | 0 <= s < size && t in slots[s] :: t in repr && t.timeSlot == s)
    }

    ghost function View(): (w: Wheel<TwTimer>)
      requires Valid()
      reads this, slots, repr
      ensures w.Valid() && |w.slots| == size
    {
      Wheel(seq(size, s requires 0 <= s < size && Valid() reads this, slots, repr => Entries(slots[s])),
            curSlot, interval)
    }

    constructor (size: nat, interval: nat)
      requires size > 0 && interval > 0
      ensures Valid() && fresh(slots) && repr == {} && View() == EmptyWheel(size, interval)
    {
      this.size, this.interval := size, interval;
      slots := new seq<TwTimer>[size](_ => []);
      curSlot, repr := 0, {};
    }

    /** add_timer */
    method AddTimer(timeout: int) returns (timer: TwTimer?)
      requires Valid()
      modifies this`repr, slots
      ensures Valid() && fresh(repr - old(repr))
      ensures timeout < 0 ==> timer == null && View() == old(View())
      ensures timeout >= 0 ==> timer != null && fresh(timer) && View() == Add(old(View()), timer, timeout)
      ensures timeout >= 0 ==>
                && timer.timeSlot < size
                && IsWorth(TicksTo(timer.circleNum, timer.timeSlot, curSlot, size), timeout, interval)
    {
      if timeout < 0 {
        return null;
      }
      var circleNum, timeSlot := Place(timeout);
      timer := PushBack(circleNum, timeSlot);
    }

    /** Where a timeout goes on the wheel. */
    method Place(timeout: nat) returns (circleNum: nat, timeSlot: nat)
      requires Valid()
      ensures var k := TickCount(timeout, interval); circleNum == k / size && timeSlot == SlotFor(curSlot, k, size)
      ensures timeSlot < size && IsWorth(TicksTo(circleNum, timeSlot, curSlot, size), timeout, interval)
    {
      var tickNum := 0;
      if timeout < interval {
        tickNum := 1;
      } else {
        tickNum := timeout / interval;
      }
      circleNum := tickNum / size;
      timeSlot := (curSlot + tickNum % size) % size;
      PlaceIsWorth(timeout, interval, tickNum, curSlot, size);
    }

    /** A new timer at the end of a slot's list. */
    method PushBack(circleNum: nat, timeSlot: nat) returns (timer: TwTimer)
      requires Valid() && timeSlot < size
      modifies this`repr, slots
      ensures Valid() && fresh(repr - old(repr)) && fresh(timer)
      ensures timer.circleNum == circleNum && timer.timeSlot == timeSlot
      ensures View() == var w := old(View());
                        w.(slots := w.slots[timeSlot := w.slots[timeSlot] + [Entry(timer, circleNum)]])
    {
      ghost var w := View();
      timer := new TwTimer(circleNum, timeSlot);
      slots[timeSlot] := slots[timeSlot] + [timer];
      repr := repr + {timer};
      assert Entries(slots[timeSlot]) == w.slots[timeSlot] + [Entry(timer, circleNum)];
      assert View().slots == w.slots[timeSlot := Entries(slots[timeSlot])];
    }

    /** del_timer */
    method DelTimer(timer: TwTimer?)
      requires Valid() && (timer != null ==> timer.timeSlot < size)
      modifies slots
      ensures Valid() && View() == if timer == null then old(View()) else Delete(old(View()), timer)
    {
      if timer == null {
        return;
      }
      var t: TwTimer := timer;
      var timeSlot := t.timeSlot;
      ghost var w := View();
      forall s | 0 <= s < size
        ensures Entries(Removed(slots[s], t)) == Without(Entries(slots[s]), t)
        ensures s != timeSlot ==> Removed(slots[s], t) == slots[s]
      {
        RemovedIsWithout(slots[s], t);
        RemovedMembers(slots[s], t);
      }
      RemovedMembers(slots[timeSlot], t);
      RemovedDistinct(slots[timeSlot], t);
      slots[timeSlot] := Removed(slots[timeSlot], t);
      assert View().slots == Delete(w, t).slots;
    }

    /** The loop body of tick, on list position `it` of the current slot: one circle less to go,
        or off the list and its callback called. */
    method ServeTimer(it: nat) returns (due: bool, timer: TwTimer)
      requires Valid() && it < |slots[curSlot]|
      modifies slots, repr
      ensures Valid()
      ensures var w := old(View());
              var slot := w.slots[curSlot];
              && slot[it].timer == timer && (due <==> slot[it].circle == 0)
              && View() == w.(slots := w.slots[curSlot := Served(slot, it)])
    {
      ghost var w := View();
      ghost var slot := w.slots[curSlot];
      timer := slots[curSlot][it];
      assert timer in slots[curSlot] && slot[it] == Entry(timer, timer.circleNum);
      if timer.circleNum > 0 {
        due := false;
        timer.circleNum := timer.circleNum - 1;
        assert Entries(slots[curSlot]) == slot[it := slot[it].(circle := slot[it].circle - 1)];
      } else {
        due := true;
        slots[curSlot] := slots[curSlot][..it] + slots[curSlot][it + 1..];
        assert Entries(slots[curSlot]) == slot[..it] + slot[it + 1..];
      }
      assert View().slots == w.slots[curSlot := Entries(slots[curSlot])];
    }

    /** One step of the loop of tick: `slot` is the current slot's list, `w` the wheel it is part of. */
    method ServeNext(it: nat, fired: seq<TwTimer>, ghost w: Wheel<TwTimer>, ghost slot: seq<Entry<TwTimer>>)
      returns (next: nat, now: seq<TwTimer>, ghost rest: seq<Entry<TwTimer>>)
      requires Valid() && it < |slots[curSlot]| && |w.slots| == size
      requires View().slots[curSlot] == slot && View() == w.(slots := w.slots[curSlot := slot])
      modifies slots, repr
      ensures Valid() && next <= |rest| && |rest| - next < |slot| - it
      ensures View().slots[curSlot] == rest && View() == w.(slots := w.slots[curSlot := rest])
      ensures slot[..it] + Kept(slot[it..]) == rest[..next] + Kept(rest[next..])
      ensures fired + Due(slot[it..]) == now + Due(rest[next..])
    {
      ServeOne(slot, it);
      var due, timer := ServeTimer(it);
      rest := Served(slot, it);
      assert w.slots[curSlot := slot][curSlot := rest] == w.slots[curSlot := rest];
      if due {
        next, now := it, fired + [timer];
        assert fired + ([timer] + Due(rest[next..])) == now + Due(rest[next..]);
      } else {
        next, now := it + 1, fired;
        assert [] + Due(rest[next..]) == Due(rest[next..]);
      }
    }

    /** The loop of tick. */
    method ServeSlot() returns (fired: seq<TwTimer>)
      requires Valid()
      modifies slots, repr
      ensures Valid() && fired == Due(old(View()).slots[curSlot])
      ensures View() == var w := old(View()); w.(slots := w.slots[curSlot := Kept(w.slots[curSlot])])
    {
      fired := [];
      ghost var w := View();
      ghost var slot := w.slots[curSlot];
      ghost var kept, due := Kept(slot), Due(slot);
      var it: nat := 0;
      assert slot[0..] == slot && w.slots[curSlot := slot] == w.slots;
      while it < |slots[curSlot]|
        invariant Valid() && it <= |slot| && View().slots[curSlot] == slot
        invariant View() == w.(slots := w.slots[curSlot := slot])
        invariant fired + Due(slot[it..]) == due
        invariant slot[..it] + Kept(slot[it..]) == kept
        decreases |slot| - it
      {
        it, fired, slot := ServeNext(it, fired, w, slot);
      }
      assert it == |slot| && slot[it..] == [] && slot[..it] + [] == slot && fired + [] == fired;
    }

    /** tick: serves the current slot, then moves the cursor on. `fired` is the order of the callbacks. */
    method TickOnce() returns (fired: seq<TwTimer>)
      requires Valid()
      modifies this`curSlot, slots, repr
      ensures Valid() && fired == Due(old(View()).slots[old(curSlot)])
      ensures View() == Tick(old(View()))
    {
      fired := ServeSlot();
      ghost var w := View();
      curSlot := (curSlot + 1) % size;
      assert View().slots == w.slots;
    }
  }
}
