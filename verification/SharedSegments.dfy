/** The shared-memory segments of the chat server: a child keeps for life the index its record had when
    it was forked, while records move when others are reaped. */
module SharedSegments {
  import opened Lists
  import opened ProcessTable

  /** `segments[i]` is the segment that the child of record `i` writes to. */
  datatype Chat = Chat(table: Table, segments: seq<nat>)

  ghost predicate Fits(c: Chat, m: Registry) {
    Represents(c.table, m) && |c.segments| == |c.table.users|
  }

  /** No two children write to the same segment. */
  ghost predicate Apart(c: Chat) {
    Distinct(c.segments)
  }

  /** Every child writes to the segment of its record's place. */
  ghost predicate InPlace(c: Chat) {
    forall i | 0 <= i < |c.segments| :: c.segments[i] == i
  }

  /** The operation forks a child. */
  predicate Forks(c: Chat, op: Op) {
    op.Accept? && op.cfd >= 0 && |c.table.users| < USER_LIMIT && op.pid >= 0
  }

  ghost function ChatStep(c: Chat, m: Registry, op: Op): (r: Chat)
    requires Fits(c, m) && Legal(m, op)
    ensures Fits(r, RegistryStep(m, op))
  {
    StepRefines(c.table, m, op);
    var t, n := TableStep(c.table, op), |c.segments|;
    match op
    case Accept(_, _, _) => Chat(t, if Forks(c, op) then c.segments + [n] else c.segments)
    case Reap(pid) => Chat(t, c.segments[c.table.subMapIdx[pid] := c.segments[n - 1]][..n - 1])
  }

  lemma ReapKeepsApart(c: Chat, m: Registry, op: Op)
    requires Fits(c, m) && Legal(m, op) && op.Reap? && Apart(c)
    ensures Apart(ChatStep(c, m, op))
  {
    var s, n, del := ChatStep(c, m, op).segments, |c.segments|, c.table.subMapIdx[op.pid];
    StepRefines(c.table, m, op);
    forall i, j | 0 <= i < j < n - 1 ensures s[i] != s[j] {
      assert s[i] == c.segments[if i == del then n - 1 else i] && s[j] == c.segments[if j == del then n - 1 else j];
    }
  }

  /** A new child gets a segment of its own exactly when nobody writes to the segment of the next free
      place: it does so when it was moved out of that place. */
  lemma NewChildIsApartIff(c: Chat, m: Registry, op: Op)
    requires Fits(c, m) && Legal(m, op) && Forks(c, op) && Apart(c)
    ensures Apart(ChatStep(c, m, op)) <==> |c.table.users| !in c.segments
  {
    var s, n := ChatStep(c, m, op).segments, |c.segments|;
    assert s == c.segments + [n];
    if n in c.segments {
      var i :| 0 <= i < n && c.segments[i] == n;
      assert s[i] == s[n];
    }
  }

  /** Every state of the run keeps the children apart. */
  ghost predicate StaysApart(c: Chat, m: Registry, ops: seq<Op>)
    requires Fits(c, m) && LegalRun(m, ops)
    decreases |ops|
  {
    Apart(c) && (ops == [] || StaysApart(ChatStep(c, m, ops[0]), RegistryStep(m, ops[0]), ops[1..]))
  }

  /** No fork of the run finds the segment of the next free place taken. */
  ghost predicate NeverTaken(c: Chat, m: Registry, ops: seq<Op>)
    requires Fits(c, m) && LegalRun(m, ops)
    decreases |ops|
  {
    ops == []
    || ((Forks(c, ops[0]) ==> |c.table.users| !in c.segments)
        && NeverTaken(ChatStep(c, m, ops[0]), RegistryStep(m, ops[0]), ops[1..]))
  }

  lemma {:induction false} RunStaysApartIff(c: Chat, m: Registry, ops: seq<Op>)
    requires Fits(c, m) && LegalRun(m, ops) && Apart(c)
    ensures StaysApart(c, m, ops) <==> NeverTaken(c, m, ops)
    decreases |ops|
  {
    if ops != [] {
      var op := ops[0];
      var d := ChatStep(c, m, op);
      if op.Reap? {
        ReapKeepsApart(c, m, op);
      } else if Forks(c, op) {
        NewChildIsApartIff(c, m, op);
      }
      if Apart(d) {
        RunStaysApartIff(d, RegistryStep(m, op), ops[1..]);
      }
    }
  }

  /** Reaping leaves every child in place exactly when it takes the last record. */
  lemma ReapKeepsInPlaceIff(c: Chat, m: Registry, op: Op)
    requires Fits(c, m) && Legal(m, op) && op.Reap? && InPlace(c)
    ensures InPlace(ChatStep(c, m, op)) <==> c.table.subMapIdx[op.pid] == |c.table.users| - 1
  {
    StepRefines(c.table, m, op);
    var s, n, del := ChatStep(c, m, op).segments, |c.segments|, c.table.subMapIdx[op.pid];
    assert del < n - 1 ==> s[del] == n - 1;
  }

  /** From children in place, a reaping and then a fork: the two youngest share a segment exactly when
      the reaped record was not the last one. */
  lemma ForkAfterReapSharesIff(c: Chat, m: Registry, reap: Op, fork: Op)
    requires Fits(c, m) && InPlace(c) && reap.Reap? && Legal(m, reap)
    requires Legal(RegistryStep(m, reap), fork) && Forks(ChatStep(c, m, reap), fork)
    ensures Apart(ChatStep(ChatStep(c, m, reap), RegistryStep(m, reap), fork))
       <==> c.table.subMapIdx[reap.pid] == |c.table.users| - 1
  {
    var d, n, del := ChatStep(c, m, reap), |c.segments|, c.table.subMapIdx[reap.pid];
    StepRefines(c.table, m, reap);
    assert forall i | 0 <= i < n - 1 :: d.segments[i] == if i == del then n - 1 else i;
    assert Apart(c);
    ReapKeepsApart(c, m, reap);
    NewChildIsApartIff(d, RegistryStep(m, reap), fork);
    if del < n - 1 {
      assert d.segments[del] == n - 1;
    }
  }
}
