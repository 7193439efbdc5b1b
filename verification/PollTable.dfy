/** The poll array of the chat room: a pass over it that closes clients by moving the last one into
    their place, while it is being scanned. */
module PollTable {
  import opened Lists

  const CLIENT_LIMIT := 5

  /** The bits of revents that are looked at. */
  datatype Events = Events(input: bool, output: bool, err: bool, rdhup: bool)

  const NONE := Events(false, false, false, false)

  /** What recv returns: an error other than EAGAIN, EAGAIN, or so many bytes (0 at end of stream). */
  datatype Received = Fatal | Again | Bytes(len: nat)

  datatype Slot = Slot(fd: int, revents: Events)

  /** The client in this slot is closed when the scan comes to it. */
  predicate Leaves(s: Slot, recv: int -> Received) {
    !s.revents.err && (s.revents.rdhup || (s.revents.input && recv(s.fd).Fatal?))
  }

  // ---------- The pass over the client slots ----------

  /** Slot `i` is filled with the last one, which goes away. */
  function SwapOut(s: seq<Slot>, i: nat): (r: seq<Slot>)
    requires i < |s|
    ensures |r| == |s| - 1
  {
    s[i := s[|s| - 1]][..|s| - 1]
  }

  /** The scan from slot `i` on: the slots it leaves. */
  function Pass(s: seq<Slot>, i: nat, recv: int -> Received): (r: seq<Slot>)
    requires i <= |s|
    ensures |r| <= |s|
    decreases |s| - i
  {
    if i == |s| then s
    else if Leaves(s[i], recv) then Pass(SwapOut(s, i), i, recv)
    else Pass(s, i + 1, recv)
  }

  /** The clients it handles, in order. */
  function Handled(s: seq<Slot>, i: nat, recv: int -> Received): seq<Slot>
    requires i <= |s|
    decreases |s| - i
  {
    if i == |s| then []
    else if Leaves(s[i], recv) then [s[i]] + Handled(SwapOut(s, i), i, recv)
    else [s[i]] + Handled(s, i + 1, recv)
  }

  /** A scan of `s` that stands at slot `i` of `v` and has handled `done`: the rest is as from there. */
  ghost predicate Underway(s: seq<Slot>, recv: int -> Received, v: seq<Slot>, i: nat, done: seq<Slot>) {
    && i <= |v| && Pass(v, i, recv) == Pass(s, 0, recv)
    && done + Handled(v, i, recv) == Handled(s, 0, recv)
  }

  lemma ScanEnds(s: seq<Slot>, recv: int -> Received, v: seq<Slot>, done: seq<Slot>)
    requires Underway(s, recv, v, |v|, done)
    ensures v == Pass(s, 0, recv) && done == Handled(s, 0, recv)
  {
  }

  /** What one poll call finds: events for each descriptor, what recv would return on it, and what
      accept returns. */
  datatype Poll = Poll(listening: Events, events: int -> Events, recv: int -> Received, cfd: int)

  function Filled(fds: seq<int>, p: Poll): (s: seq<Slot>)
    ensures |s| == |fds| && forall k | 0 <= k < |fds| :: s[k] == Slot(fds[k], p.events(fds[k]))
  {
    seq(|fds|, k requires 0 <= k < |fds| => Slot(fds[k], p.events(fds[k])))
  }

  /** Whether a client is admitted beside `n` others. */
  predicate Admits(n: nat, listening: Events, cfd: int) {
    listening.input && cfd >= 0 && n < CLIENT_LIMIT
  }

  predicate TakesNew(n: nat, p: Poll) {
    Admits(n, p.listening, p.cfd)
  }

  /** Slot 0 comes first: a new client gets a slot at the end, with no events yet. */
  function Admitted(s: seq<Slot>, listening: Events, cfd: int): seq<Slot> {
    if Admits(|s|, listening, cfd) then s + [Slot(cfd, NONE)] else s
  }

  function WithNew(s: seq<Slot>, p: Poll): seq<Slot> {
    Admitted(s, p.listening, p.cfd)
  }

  function Fds(s: seq<Slot>): (r: seq<int>)
    ensures |r| == |s| && forall k | 0 <= k < |s| :: r[k] == s[k].fd
  {
    seq(|s|, k requires 0 <= k < |s| => s[k].fd)
  }

  function Round(fds: seq<int>, p: Poll): seq<int> {
    Fds(Pass(WithNew(Filled(fds, p), p), 0, p.recv))
  }

  // ---------- What a pass does ----------

  function Survivors(s: seq<Slot>, recv: int -> Received): seq<Slot> {
    if s == [] then []
    else if Leaves(s[0], recv) then Survivors(s[1..], recv)
    else [s[0]] + Survivors(s[1..], recv)
  }

  lemma SwapOutContents(s: seq<Slot>, i: nat)
    requires i < |s|
    ensures SwapOut(s, i)[..i] == s[..i]
    ensures multiset(SwapOut(s, i)[i..]) == multiset(s[i + 1..])
  {
    var n := |s| - 1;
    if i < n {
      assert SwapOut(s, i)[i..] == [s[n]] + s[i + 1..n];
      assert s[i + 1..] == s[i + 1..n] + [s[n]];
    }
  }

  lemma {:induction false} SurvivorsOfSame(a: seq<Slot>, b: seq<Slot>, recv: int -> Received)
    requires multiset(a) == multiset(b)
    ensures multiset(Survivors(a, recv)) == multiset(Survivors(b, recv))
  {
    forall x: Slot ensures multiset(Survivors(a, recv))[x] == multiset(Survivors(b, recv))[x] {
      SurvivorsCount(a, recv, x);
      SurvivorsCount(b, recv, x);
    }
  }

  lemma {:induction false} SurvivorsCount(s: seq<Slot>, recv: int -> Received, x: Slot)
    ensures multiset(Survivors(s, recv))[x] == if Leaves(x, recv) then 0 else multiset(s)[x]
  {
    if s != [] {
      SurvivorsCount(s[1..], recv, x);
      assert s == [s[0]] + s[1..];
    }
  }

  /** Whatever the swaps do, exactly the slots that are not to leave are kept. */
  lemma {:induction false} PassKeepsSurvivors(s: seq<Slot>, i: nat, recv: int -> Received)
    requires i <= |s|
    ensures multiset(Pass(s, i, recv)) == multiset(s[..i]) + multiset(Survivors(s[i..], recv))
    decreases |s| - i
  {
    if i == |s| {
      assert s[..i] == s;
    } else if Leaves(s[i], recv) {
      SwapOutContents(s, i);
      PassKeepsSurvivors(SwapOut(s, i), i, recv);
      SurvivorsOfSame(SwapOut(s, i)[i..], s[i + 1..], recv);
      assert s[i..][1..] == s[i + 1..];
    } else {
      PassKeepsSurvivors(s, i + 1, recv);
      assert s[..i + 1] == s[..i] + [s[i]];
      assert s[i..][1..] == s[i + 1..];
    }
  }

  /** Every slot present at the start is handled exactly once, in spite of the swaps. */
  lemma {:induction false} PassHandlesEachOnce(s: seq<Slot>, i: nat, recv: int -> Received)
    requires i <= |s|
    ensures multiset(Handled(s, i, recv)) == multiset(s[i..])
    decreases |s| - i
  {
    if i < |s| {
      assert s[i..] == [s[i]] + s[i + 1..];
      if Leaves(s[i], recv) {
        SwapOutContents(s, i);
        PassHandlesEachOnce(SwapOut(s, i), i, recv);
      } else {
        PassHandlesEachOnce(s, i + 1, recv);
      }
    }
  }

  lemma {:induction false} PassKeepsDistinct(s: seq<Slot>, i: nat, recv: int -> Received)
    requires i <= |s| && Distinct(Fds(s))
    ensures Distinct(Fds(Pass(s, i, recv)))
    decreases |s| - i
  {
    if i < |s| {
      if Leaves(s[i], recv) {
        var s', n := SwapOut(s, i), |s| - 1;
        forall a, b | 0 <= a < b < n ensures Fds(s')[a] != Fds(s')[b] {
          assert Fds(s)[if a == i then n else a] != Fds(s)[if b == i then n else b];
        }
        PassKeepsDistinct(s', i, recv);
      } else {
        PassKeepsDistinct(s, i + 1, recv);
      }
    }
  }

  // ---------- Rounds and runs ----------

  predicate Departs(x: int, p: Poll) {
    Leaves(Slot(x, p.events(x)), p.recv)
  }

  /** accept never returns the descriptor of an open client. */
  ghost predicate Legal(fds: seq<int>, p: Poll) {
    p.cfd !in fds
  }

  lemma SlotsOfRound(fds: seq<int>, p: Poll, x: int)
    requires Legal(fds, p)
    ensures var s := WithNew(Filled(fds, p), p);
            x in Round(fds, p)
            <==> exists k | 0 <= k < |s| :: s[k].fd == x && !Leaves(s[k], p.recv)
  {
    var s := WithNew(Filled(fds, p), p);
    var r := Pass(s, 0, p.recv);
    PassKeepsSurvivors(s, 0, p.recv);
    assert s[0..] == s && s[..0] == [];
    if x in Round(fds, p) {
      var k :| 0 <= k < |r| && r[k].fd == x;
      assert r[k] in multiset(r);
      SurvivorsCount(s, p.recv, r[k]);
      assert r[k] in s;
    }
    if k :| 0 <= k < |s| && s[k].fd == x && !Leaves(s[k], p.recv) {
      SurvivorsCount(s, p.recv, s[k]);
      assert s[k] in multiset(r) && s[k] in r;
    }
  }

  /** After one pass the array holds exactly the clients that stay, each once, and at most one new
      client. A client is closed on POLLRDHUP, or on POLLIN when recv fails other than with EAGAIN, but
      never while POLLERR is set; a new one is admitted only when fewer than five were there as the pass
      began. */
  lemma RoundOutcome(fds: seq<int>, p: Poll)
    requires Distinct(fds) && Legal(fds, p)
    ensures Distinct(Round(fds, p))
    ensures forall x | x in fds ::
              x !in Round(fds, p)
              <==> !p.events(x).err && (p.events(x).rdhup || (p.events(x).input && p.recv(x) == Fatal))
    ensures forall x | x !in fds ::
              x in Round(fds, p) <==> p.listening.input && p.cfd >= 0 && |fds| < 5 && x == p.cfd
    ensures |fds| <= 5 ==> |Round(fds, p)| <= 5
  {
    var s := WithNew(Filled(fds, p), p);
    forall i, j | 0 <= i < j < |s| ensures Fds(s)[i] != Fds(s)[j] {
      assert i < |fds| && (j < |fds| ==> fds[i] != fds[j]);
    }
    PassKeepsDistinct(s, 0, p.recv);
    forall x ensures x in Round(fds, p)
                     <==> (x in fds && !Departs(x, p)) || (TakesNew(|fds|, p) && x == p.cfd) {
      SlotsOfRound(fds, p, x);
      MembersWithNew(fds, p, x);
    }
  }

  lemma MembersWithNew(fds: seq<int>, p: Poll, x: int)
    requires Legal(fds, p)
    ensures var s := WithNew(Filled(fds, p), p);
            (exists k | 0 <= k < |s| :: s[k].fd == x && !Leaves(s[k], p.recv))
            <==> (x in fds && !Departs(x, p)) || (TakesNew(|fds|, p) && x == p.cfd)
  {
    var s := WithNew(Filled(fds, p), p);
    if x in fds && !Departs(x, p) {
      var k :| 0 <= k < |fds| && fds[k] == x;
      assert s[k] == Slot(x, p.events(x));
    }
    if TakesNew(|fds|, p) && x == p.cfd {
      assert s[|fds|] == Slot(x, NONE);
    }
  }

  /** Every client is looked at exactly once in a pass, with the events poll found for it, and so is
      the new one. */
  lemma RoundHandlesEachOnce(fds: seq<int>, p: Poll)
    ensures var s := Handled(WithNew(Filled(fds, p), p), 0, p.recv);
            multiset(s) == if TakesNew(|fds|, p) then multiset(Filled(fds, p)) + multiset{Slot(p.cfd, NONE)}
                           else multiset(Filled(fds, p))
  {
    var s := WithNew(Filled(fds, p), p);
    PassHandlesEachOnce(s, 0, p.recv);
    assert s[0..] == s;
  }

  /** The reference: the set of open clients, with no order. */
  ghost function OpenAfter(open: set<int>, p: Poll): set<int> {
    var gone := set x | x in open && !p.events(x).err
                        && (p.events(x).rdhup || (p.events(x).input && p.recv(x) == Fatal));
    if p.listening.input && p.cfd >= 0 && |open| < 5 then open - gone + {p.cfd} else open - gone
  }

  ghost predicate LegalRun(open: set<int>, polls: seq<Poll>)
    decreases |polls|
  {
    polls == [] || (polls[0].cfd !in open && LegalRun(OpenAfter(open, polls[0]), polls[1..]))
  }

  ghost function OpenRun(open: set<int>, polls: seq<Poll>): set<int>
    decreases |polls|
  {
    if polls == [] then open else OpenRun(OpenAfter(open, polls[0]), polls[1..])
  }

  function Run(fds: seq<int>, polls: seq<Poll>): seq<int>
    decreases |polls|
  {
    if polls == [] then fds else Run(Round(fds, polls[0]), polls[1..])
  }

  ghost predicate Holds(fds: seq<int>, open: set<int>) {
    Distinct(fds) && |fds| <= CLIENT_LIMIT && |fds| == |open| && forall x :: x in fds <==> x in open
  }

  lemma {:induction false} CountDistinct(fds: seq<int>, open: set<int>)
    requires Distinct(fds) && forall x :: x in fds <==> x in open
    ensures |fds| == |open|
  {
    if fds == [] {
      assert forall x | x in open :: x in fds;
      assert open == {};
    } else {
      var rest := open - {fds[0]};
      forall x ensures x in fds[1..] <==> x in rest {
        assert x in fds <==> x == fds[0] || x in fds[1..];
      }
      CountDistinct(fds[1..], rest);
    }
  }

  /** Over every run, the array edited during its own scans holds exactly the open clients. */
  lemma {:induction false} TableRefinesOpenSet(fds: seq<int>, open: set<int>, polls: seq<Poll>)
    requires Holds(fds, open) && LegalRun(open, polls)
    ensures Holds(Run(fds, polls), OpenRun(open, polls))
    decreases |polls|
  {
    if polls != [] {
      var p := polls[0];
      RoundOutcome(fds, p);
      forall x ensures x in Round(fds, p) <==> x in OpenAfter(open, p) {
        assert x in fds <==> x in open;
      }
      CountDistinct(Round(fds, p), OpenAfter(open, p));
      TableRefinesOpenSet(Round(fds, p), OpenAfter(open, p), polls[1..]);
    }
  }

  // ---------- The array ----------

  class ChatRoom {
    const sock: int
    const fds: array<Slot>
    var userCnt: nat

    ghost predicate Valid()
      reads this, fds
    {
      && fds.Length == CLIENT_LIMIT + 1 && userCnt <= CLIENT_LIMIT && fds[0].fd == sock
      && forall k | 0 <= k < userCnt :: View()[k].fd != sock
    }

    ghost function View(): seq<Slot>
      reads this, fds
      requires userCnt < fds.Length
    {
      fds[1..userCnt + 1]
    }

    constructor (sock: int)
      ensures Valid() && fresh(fds) && View() == [] && this.sock == sock
    {
      this.sock := sock;
      fds := new Slot[CLIENT_LIMIT + 1](_ => Slot(-1, NONE));
      userCnt := 0;
      new;
      fds[0] := Slot(sock, NONE);
    }

    /** The listening socket is readable: `cfd` is what accept returns. */
    method AcceptClient(cfd: int) returns (taken: bool)
      requires Valid() && cfd != sock
      modifies this`userCnt, fds
      ensures Valid() && fds[0] == old(fds[0])
      ensures taken <==> cfd >= 0 && old(userCnt) < CLIENT_LIMIT
      ensures View() == if taken then old(View()) + [Slot(cfd, NONE)] else old(View())
    {
      if cfd < 0 || userCnt >= CLIENT_LIMIT {
        return false;
      }
      ghost var was := View();
      userCnt := userCnt + 1;
      fds[userCnt] := Slot(cfd, NONE);
      assert View() == was + [Slot(cfd, NONE)];
      return true;
    }

    /** The client in slot `i` is closed: the last client takes its slot. */
    method Drop(i: nat)
      requires Valid() && 1 <= i <= userCnt
      modifies this`userCnt, fds
      ensures Valid() && fds[0] == old(fds[0])
      ensures View() == SwapOut(old(View()), i - 1)
    {
      ghost var was := View();
      fds[i] := fds[userCnt];
      userCnt := userCnt - 1;
      assert View() == SwapOut(was, i - 1);
    }

    /** The branches after the accept, for the client in slot `i`. */
    method HandleClient(i: nat, recv: int -> Received) returns (left: bool)
      requires Valid() && 1 <= i <= userCnt
      modifies this`userCnt, fds
      ensures Valid() && fds[0] == old(fds[0])
      ensures var e := old(View())[i - 1].revents;
              left <==> !e.err && (e.rdhup || (e.input && recv(old(View())[i - 1].fd) == Fatal))
      ensures left == Leaves(old(View())[i - 1], recv)
      ensures View() == if left then SwapOut(old(View()), i - 1) else old(View())
    {
      var e := fds[i].revents;
      if e.err {
        return false;
      } else if e.rdhup {
        Drop(i);
        return true;
      } else if e.input {
        var got := recv(fds[i].fd);
        if got.Fatal? {
          Drop(i);
          return true;
        }
      }
      return false;
    }

    /** Slot `i` of the array, the listening socket's or a client's. A client's slot is left as the
        pass over the clients would leave it. */
    method Visit(i: nat, recv: int -> Received, cfd: int, before: seq<Slot>)
      returns (left: bool, handled: seq<Slot>)
      requires Valid() && i <= userCnt && cfd != sock && !fds[0].revents.rdhup
      modifies this`userCnt, fds
      ensures Valid() && fds[0] == old(fds[0]) && (i == 0 ==> !left && handled == before)
      ensures i == 0 ==> View() == Admitted(old(View()), fds[0].revents, cfd)
      ensures i > 0 ==>
                var e := old(View())[i - 1].revents;
                left <==> !e.err && (e.rdhup || (e.input && recv(old(View())[i - 1].fd) == Fatal))
      ensures i > 0 ==>
                var k := if left then i - 1 else i;
                && |View()| >= k && |View()| - k < |old(View())| - (i - 1)
                && Pass(View(), k, recv) == Pass(old(View()), i - 1, recv)
                && before + Handled(old(View()), i - 1, recv) == handled + Handled(View(), k, recv)
    {
      assert i > 0 ==> View()[i - 1].fd != sock;
      if fds[i].fd == sock && fds[i].revents.input {
        var _ := AcceptClient(cfd);
        return false, before;
      }
      if i == 0 {
        return false, before;
      }
      handled := before + [fds[i]];
      left := HandleClient(i, recv);
    }

    /** One pass of the loop over the array, which may grow and shrink while it runs. poll never
        reports POLLRDHUP for the listening socket, which has not asked for it. */
    method Scan(recv: int -> Received, cfd: int) returns (handled: seq<Slot>)
      requires Valid() && cfd != sock && !fds[0].revents.rdhup
      modifies this`userCnt, fds
      ensures Valid()
      ensures View() == Pass(Admitted(old(View()), old(fds[0]).revents, cfd), 0, recv)
      ensures handled == Handled(Admitted(old(View()), old(fds[0]).revents, cfd), 0, recv)
    {
      handled := [];
      ghost var first, door := View(), fds[0];
      ghost var s := Admitted(first, door.revents, cfd);
      var i := 0;
      while i < userCnt + 1
        invariant Valid() && 0 <= i <= userCnt + 1 && fds[0] == door
        invariant i == 0 ==> View() == first && handled == []
        invariant i > 0 ==> Underway(s, recv, View(), i - 1, handled)
        decreases if i == 0 then 1 else 0, userCnt - i
      {
        var left;
        left, handled := Visit(i, recv, cfd, handled);
        assert Underway(s, recv, View(), if left then i - 1 else i, handled);
        if left {
          i := i - 1;
        }
        i := i + 1;
      }
      ScanEnds(s, recv, View(), handled);
    }

    /** poll fills in revents, for the listening socket and for the clients. */
    method FillEvents(p: Poll)
      requires Valid()
      modifies fds
      ensures Valid() && fds[0] == Slot(sock, p.listening)
      ensures View() == Filled(Fds(old(View())), p)
    {
      ghost var was := View();
      fds[0] := Slot(sock, p.listening);
      var k := 1;
      while k <= userCnt
        invariant 1 <= k <= userCnt + 1 && fds[0] == Slot(sock, p.listening)
        invariant forall j | 1 <= j < k :: fds[j] == Slot(was[j - 1].fd, p.events(was[j - 1].fd))
        invariant forall j | k <= j <= userCnt :: fds[j] == was[j - 1]
      {
        fds[k] := Slot(fds[k].fd, p.events(fds[k].fd));
        k := k + 1;
      }
    }

    /** One turn of the server's loop. */
    method Turn(p: Poll) returns (handled: seq<Slot>)
      requires Valid() && p.cfd != sock && !p.listening.rdhup
      modifies this`userCnt, fds
      ensures Valid() && Fds(View()) == Round(Fds(old(View())), p)
      ensures handled == Handled(WithNew(Filled(Fds(old(View())), p), p), 0, p.recv)
    {
      FillEvents(p);
      handled := Scan(p.recv, p.cfd);
    }
  }
}
