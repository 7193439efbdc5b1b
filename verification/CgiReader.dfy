/** The receive loop of the CGI server: bytes are received until a line end, the line is the name of
    the program to run. */
module CgiReader {
  import opened CStrings

  const BUFFER_SIZE := 1024
  const ROOM := BUFFER_SIZE - 1

  /** What the socket has for the next recv: some bytes, nothing yet (EAGAIN, which ends one call of
      process), an error, or the end of the stream. */
  datatype Arrival = Bytes(data: string) | Blocked | Failed | Ended

  /** Still waiting for a line end; connection closed without one; or the first line. */
  datatype Outcome = Waiting(read: string) | Closed | Found(line: string)

  predicate EndAt(s: string, i: nat) {
    i + 1 < |s| && s[i] == CR && s[i + 1] == LF
  }

  /** recv never returns no bytes except at the end of the stream. */
  predicate Deliverable(arrivals: seq<Arrival>) {
    forall i | 0 <= i < |arrivals| && arrivals[i].Bytes? :: arrivals[i].data != []
  }

  // ---------- The loop, as a function ----------

  /** The scan for a line end whose LF is at `idx` or later; |s| when there is none. */
  function Scan(s: string, idx: nat): (j: nat)
    requires idx <= |s|
    ensures idx <= j <= |s|
    ensures j < |s| ==> j >= 1 && EndAt(s, j - 1)
    ensures forall i: nat | idx <= i + 1 < j :: !EndAt(s, i)
    decreases |s| - idx
  {
    if idx == |s| || (idx >= 1 && s[idx - 1] == CR && s[idx] == LF) then idx else Scan(s, idx + 1)
  }

  function Least(a: nat, b: nat): nat {
    if a < b then a else b
  }

  function FirstLength(arrivals: seq<Arrival>): nat {
    if arrivals != [] && arrivals[0].Bytes? then |arrivals[0].data| else 0
  }

  /** What is left of the arrivals after one recv has taken `k` bytes of the first. */
  function AfterRecv(arrivals: seq<Arrival>, k: nat): (r: seq<Arrival>)
    requires arrivals != [] && arrivals[0].Bytes? && 0 < k <= |arrivals[0].data| && Deliverable(arrivals)
    ensures Deliverable(r)
    ensures |r| < |arrivals| || (|r| == |arrivals| && FirstLength(r) < FirstLength(arrivals))
  {
    if k == |arrivals[0].data| then arrivals[1..] else [Bytes(arrivals[0].data[k..])] + arrivals[1..]
  }

  /** Everything the connection does from `read` on, over as many calls of process as it takes. */
  function Feed(read: string, arrivals: seq<Arrival>): Outcome
    requires |read| <= ROOM && Deliverable(arrivals)
    decreases |arrivals|, FirstLength(arrivals)
  {
    if arrivals == [] then Waiting(read)
    else
      match arrivals[0]
      case Blocked => Feed(read, arrivals[1..])
      case Failed => Closed
      case Ended => Closed
      case Bytes(data) =>
        // a full buffer asks recv for no bytes, and takes the 0 it returns for the end of the stream
        if |read| == ROOM then Closed
        else
          var k := Least(ROOM - |read|, |data|);
          var now := read + data[..k];
          var j := Scan(now, |read|);
          if j < |now| then Found(now[..j - 1]) else Feed(now, AfterRecv(arrivals, k))
  }

  // ---------- What it should do ----------

  /** Where the first CRLF starts, looking from `i` on; |s| when there is none. */
  function FirstFrom(s: string, i: nat): (p: nat)
    requires i <= |s|
    ensures i <= p <= |s| && (p < |s| ==> EndAt(s, p))
    ensures forall k: nat | i <= k < p :: !EndAt(s, k)
    decreases |s| - i
  {
    if i == |s| || EndAt(s, i) then i else FirstFrom(s, i + 1)
  }

  function FirstLineEnd(s: string): nat {
    FirstFrom(s, 0)
  }

  /** The bytes that arrive before the connection fails or ends. */
  function Delivered(arrivals: seq<Arrival>): string {
    if arrivals == [] || arrivals[0].Failed? || arrivals[0].Ended? then []
    else if arrivals[0].Bytes? then arrivals[0].data + Delivered(arrivals[1..])
    else Delivered(arrivals[1..])
  }

  predicate Cut(arrivals: seq<Arrival>) {
    exists i | 0 <= i < |arrivals| :: arrivals[i].Failed? || arrivals[i].Ended?
  }

  /** The outcome as a property of the whole stream. */
  function Verdict(stream: string, cut: bool): Outcome {
    var seen := stream[..Least(1023, |stream|)];
    var p := FirstLineEnd(seen);
    if p < |seen| then Found(seen[..p])
    else if |stream| > 1023 || cut then Closed
    else Waiting(stream)
  }

  // ---------- The two agree ----------

  lemma FirstIsUnique(s: string, p: nat)
    requires EndAt(s, p) && forall i: nat | i < p :: !EndAt(s, i)
    ensures FirstLineEnd(s) == p
  {
  }

  lemma ScanFindsNothing(read: string, more: string)
    requires FirstLineEnd(read) == |read| && Scan(read + more, |read|) == |read + more|
    ensures FirstLineEnd(read + more) == |read + more|
  {
    var now := read + more;
    forall i: nat | i + 1 < |read| ensures !EndAt(now, i) {
      assert !EndAt(read, i);
    }
  }

  /** Scanning the new bytes, and the last one before them, finds the first CRLF of everything. */
  lemma ScanFindsTheFirst(read: string, more: string, rest: string)
    requires |read + more| <= ROOM && FirstLineEnd(read) == |read|
    requires Scan(read + more, |read|) < |read + more|
    ensures var now := read + more; var j := Scan(now, |read|);
            Verdict(now + rest, false) == Verdict(now + rest, true) == Found(now[..j - 1])
  {
    var now := read + more;
    var j := Scan(now, |read|);
    var seen := (now + rest)[..Least(ROOM, |now + rest|)];
    forall i: nat | i < j - 1 ensures !EndAt(seen, i) {
      assert i + 1 < |read| ==> !EndAt(read, i);
      assert EndAt(seen, i) <==> EndAt(now, i);
    }
    assert EndAt(seen, j - 1);
    FirstIsUnique(seen, j - 1);
  }

  lemma Regroup(data: string, k: nat, more: string)
    requires k <= |data|
    ensures data + more == data[..k] + (data[k..] + more)
  {
  }

  lemma AfterRecvDelivers(arrivals: seq<Arrival>, k: nat)
    requires arrivals != [] && arrivals[0].Bytes? && 0 < k <= |arrivals[0].data| && Deliverable(arrivals)
    ensures Delivered(arrivals) == arrivals[0].data[..k] + Delivered(AfterRecv(arrivals, k))
    ensures Cut(AfterRecv(arrivals, k)) <==> Cut(arrivals)
  {
    var data, rest, r := arrivals[0].data, arrivals[1..], AfterRecv(arrivals, k);
    CutOfTail(arrivals);
    if k < |data| {
      assert r[1..] == rest && r[0].data == data[k..];
      CutOfTail(r);
      Regroup(data, k, Delivered(rest));
    } else {
      assert data[..k] == data;
    }
  }

  lemma CutOfTail(arrivals: seq<Arrival>)
    requires arrivals != []
    ensures Cut(arrivals) <==> arrivals[0].Failed? || arrivals[0].Ended? || Cut(arrivals[1..])
  {
    if Cut(arrivals[1..]) {
      var i :| 0 <= i < |arrivals[1..]| && (arrivals[1..][i].Failed? || arrivals[1..][i].Ended?);
      assert arrivals[i + 1].Failed? || arrivals[i + 1].Ended?;
    }
    if Cut(arrivals) && !arrivals[0].Failed? && !arrivals[0].Ended? {
      var i :| 0 <= i < |arrivals| && (arrivals[i].Failed? || arrivals[i].Ended?);
      assert arrivals[1..][i - 1] == arrivals[i];
    }
  }

  /** One recv that returns bytes. */
  lemma FeedBytes(read: string, arrivals: seq<Arrival>, k: nat)
    requires |read| < ROOM && Deliverable(arrivals) && arrivals != [] && arrivals[0].Bytes?
    requires k == Least(ROOM - |read|, |arrivals[0].data|)
    ensures var now := read + arrivals[0].data[..k]; var j := Scan(now, |read|);
            Feed(read, arrivals) == if j < |now| then Found(now[..j - 1]) else Feed(now, AfterRecv(arrivals, k))
  {
  }

  /** What the scan finds is the verdict; where it finds nothing, the verdict is still open. */
  lemma ScanDecides(read: string, taken: string, later: string, cut: bool, f: Outcome)
    requires |read + taken| <= ROOM && FirstLineEnd(read) == |read|
    requires var now := read + taken; var j := Scan(now, |read|);
             f == if j < |now| then Found(now[..j - 1]) else Verdict(now + later, cut)
    ensures f == Verdict(read + taken + later, cut)
  {
    if Scan(read + taken, |read|) < |read + taken| {
      ScanFindsTheFirst(read, taken, later);
    }
  }

  ghost predicate Agrees(read: string, arrivals: seq<Arrival>)
    requires |read| <= ROOM && Deliverable(arrivals)
  {
    Feed(read, arrivals) == Verdict(read + Delivered(arrivals), Cut(arrivals))
  }

  lemma VerdictOnNothingMore(read: string, cut: bool)
    requires |read| <= ROOM && FirstLineEnd(read) == |read|
    ensures Verdict(read + "", cut) == if cut then Closed else Waiting(read)
  {
    assert read + "" == read && read[..|read|] == read;
  }

  lemma AgreesAtEnd(read: string, arrivals: seq<Arrival>)
    requires |read| <= ROOM && Deliverable(arrivals) && FirstLineEnd(read) == |read|
    requires arrivals == [] || arrivals[0].Failed? || arrivals[0].Ended?
    ensures Agrees(read, arrivals)
  {
    VerdictOnNothingMore(read, Cut(arrivals));
    if arrivals != [] {
      CutOfTail(arrivals);
    }
  }

  lemma VerdictOnFull(read: string, more: string, cut: bool)
    requires |read| == ROOM && FirstLineEnd(read) == |read| && more != ""
    ensures Verdict(read + more, cut) == Closed
  {
    assert (read + more)[..ROOM] == read;
  }

  lemma AgreesWhenFull(read: string, arrivals: seq<Arrival>)
    requires |read| == ROOM && Deliverable(arrivals) && FirstLineEnd(read) == |read|
    requires arrivals != [] && arrivals[0].Bytes?
    ensures Agrees(read, arrivals)
  {
    VerdictOnFull(read, Delivered(arrivals), Cut(arrivals));
  }

  lemma AgreesAfterBytes(read: string, arrivals: seq<Arrival>, k: nat)
    requires |read| < ROOM && Deliverable(arrivals) && FirstLineEnd(read) == |read|
    requires arrivals != [] && arrivals[0].Bytes? && k == Least(ROOM - |read|, |arrivals[0].data|)
    requires var now := read + arrivals[0].data[..k];
             Scan(now, |read|) == |now| ==> Agrees(now, AfterRecv(arrivals, k))
    ensures Agrees(read, arrivals)
  {
    var taken, next := arrivals[0].data[..k], AfterRecv(arrivals, k);
    var later := Delivered(next);
    FeedBytes(read, arrivals, k);
    AfterRecvDelivers(arrivals, k);
    Associates(read, taken, later);
    ScanDecides(read, taken, later, Cut(arrivals), Feed(read, arrivals));
  }

  lemma Associates(a: string, b: string, c: string)
    ensures a + b + c == a + (b + c)
  {
  }

  /** The loop stops at the first CRLF of the stream when its LF is among the first 1023 bytes; it
      closes the connection when there is none and the stream is longer or is cut; it waits
      otherwise. Nothing else about the arrivals matters. */
  lemma {:induction false} FeedIsVerdict(read: string, arrivals: seq<Arrival>)
    requires |read| <= ROOM && Deliverable(arrivals) && FirstLineEnd(read) == |read|
    ensures Feed(read, arrivals) == Verdict(read + Delivered(arrivals), Cut(arrivals))
    decreases |arrivals|, FirstLength(arrivals)
  {
    if arrivals == [] || arrivals[0].Failed? || arrivals[0].Ended? {
      AgreesAtEnd(read, arrivals);
    } else if arrivals[0].Blocked? {
      CutOfTail(arrivals);
      FeedIsVerdict(read, arrivals[1..]);
    } else if |read| == ROOM {
      AgreesWhenFull(read, arrivals);
    } else {
      var k := Least(ROOM - |read|, |arrivals[0].data|);
      var taken := arrivals[0].data[..k];
      if Scan(read + taken, |read|) == |read + taken| {
        ScanFindsNothing(read, taken);
        FeedIsVerdict(read + taken, AfterRecv(arrivals, k));
      }
      AgreesAfterBytes(read, arrivals, k);
    }
  }

  /** However the stream is split, between CR and LF included, the outcome is the same. */
  lemma ChunksDoNotMatter(a: seq<Arrival>, b: seq<Arrival>)
    requires Deliverable(a) && Deliverable(b)
    requires Delivered(a) == Delivered(b) && (Cut(a) <==> Cut(b))
    ensures Feed([], a) == Feed([], b)
  {
    FeedIsVerdict([], a);
    FeedIsVerdict([], b);
  }

  /** The file name is the C string in the buffer: it is the whole line exactly when the line holds
      no NUL. */
  lemma FileNameIsTheLine(line: string)
    ensures CString(line + [NUL], 0) == line <==> Free(line, {NUL})
  {
    if Free(line, {NUL}) {
      CStringIs(line + [NUL], 0, line);
    }
  }

  // ---------- The connection ----------

  class CgiConn {
    const buf: array<char>
    var readIdx: nat

    ghost predicate Valid()
      reads this
    {
      buf.Length == BUFFER_SIZE && readIdx <= ROOM
    }

    ghost function Read(): string
      requires Valid()
      reads this, buf
    {
      buf[..readIdx]
    }

    constructor ()
      ensures Valid() && fresh(buf) && Read() == []
    {
      buf := new char[BUFFER_SIZE](_ => NUL);
      readIdx := 0;
    }

    /** recv */
    method Receive(data: string)
      requires Valid() && readIdx + |data| <= ROOM
      modifies this`readIdx, buf
      ensures Valid() && Read() == old(Read()) + data
    {
      var i := 0;
      while i < |data|
        invariant 0 <= i <= |data| && Valid() && readIdx == old(readIdx)
        invariant buf[..readIdx] == old(buf[..readIdx])
        invariant buf[readIdx..readIdx + i] == data[..i]
      {
        buf[readIdx + i] := data[i];
        i := i + 1;
      }
      readIdx := readIdx + |data|;
      assert buf[..readIdx] == old(buf[..readIdx]) + data[..i];
    }

    method FindLineEnd(from: nat) returns (idx: nat)
      requires Valid() && from <= readIdx
      ensures idx == Scan(Read(), from)
    {
      idx := from;
      while idx < readIdx
        invariant from <= idx <= readIdx && Scan(Read(), idx) == Scan(Read(), from)
      {
        if idx >= 1 && buf[idx - 1] == CR && buf[idx] == LF {
          break;
        }
        idx := idx + 1;
      }
    }

    /** The line is cut off in the buffer, and read back as a file name. */
    method TakeName(idx: nat) returns (name: string)
      requires Valid() && 1 <= idx < readIdx
      modifies buf
      ensures name == CString(old(Read())[..idx - 1] + [NUL], 0)
    {
      ghost var line := buf[..idx - 1];
      buf[idx - 1] := NUL;
      name := CString(buf[..idx], 0);
      assert buf[..idx] == line + [NUL] && old(Read())[..idx - 1] == line;
    }

    /** One recv that returns bytes, and the scan of what it returned. */
    method TakeBytes(data: string) returns (found: bool, line: string, name: string)
      requires Valid() && data != [] && readIdx + |data| <= ROOM
      modifies this`readIdx, buf
      ensures Valid()
      ensures var now := old(Read()) + data; var j := Scan(now, |old(Read())|);
              && (found <==> j < |now|)
              && (found ==> line == now[..j - 1] && name == CString(line + [NUL], 0))
              && (!found ==> Read() == now)
    {
      line, name := [], [];
      var idx := readIdx;
      Receive(data);
      idx := FindLineEnd(idx);
      found := idx < readIdx;
      if found {
        line := buf[..idx - 1];
        assert Read()[..idx - 1] == line;
        name := TakeName(idx);
      }
    }

    /** The next recv, when bytes have arrived and there is room for `k` of them. */
    method RecvBytes(arrivals: seq<Arrival>, k: nat) returns (found: bool, line: string, name: string)
      requires Valid() && readIdx < ROOM && Deliverable(arrivals) && arrivals != [] && arrivals[0].Bytes?
      requires k == Least(ROOM - readIdx, |arrivals[0].data|)
      modifies this`readIdx, buf
      ensures Valid()
      ensures Feed(old(Read()), arrivals) == if found then Found(line) else Feed(Read(), AfterRecv(arrivals, k))
      ensures found ==> name == CString(line + [NUL], 0)
    {
      FeedBytes(Read(), arrivals, k);
      found, line, name := TakeBytes(arrivals[0].data[..k]);
    }

    /** process: `left` is what it has not taken of the arrivals; `access` says which programs
        exist, `pid` is what fork returns. The program is started, or not; the connection is closed either way. */
    method Process(arrivals: seq<Arrival>, access: string -> bool, pid: int)
      returns (r: Outcome, name: string, started: bool, left: seq<Arrival>)
      requires Valid() && Deliverable(arrivals)
      modifies this`readIdx, buf
      ensures Valid() && Deliverable(left) && |left| <= |arrivals| && (arrivals != [] ==> |left| < |arrivals|)
      ensures r.Waiting? ==> r == Waiting(Read()) && Feed(old(Read()), arrivals) == Feed(Read(), left)
      ensures !r.Waiting? ==> Feed(old(Read()), arrivals) == r
      ensures r.Found? ==> name == CString(r.line + [NUL], 0)
      ensures started <==> r.Found? && access(name) && pid != -1
    {
      name, started, left := [], false, arrivals;
      ghost var goal := Feed(Read(), arrivals);
      while left != []
        invariant Valid() && Deliverable(left) && |left| <= |arrivals| && !started
        invariant Feed(Read(), left) == goal
        decreases |left|, FirstLength(left)
      {
        match left[0]
        case Blocked => return Waiting(buf[..readIdx]), [], false, left[1..];
        case Failed => return Closed, [], false, left[1..];
        case Ended => return Closed, [], false, left[1..];
        case Bytes(data) =>
          if readIdx == ROOM {
            return Closed, [], false, left[1..];
          }
          var k := Least(ROOM - readIdx, |data|);
          var found, line, file := RecvBytes(left, k);
          if found {
            return Found(line), file, access(file) && pid != -1, left[1..];
          }
          left := AfterRecv(left, k);
      }
      r := Waiting(buf[..readIdx]);
    }

    /** The server calls process whenever the socket is readable, until the connection is closed. */
    method Serve(arrivals: seq<Arrival>, access: string -> bool, pid: int)
      returns (r: Outcome, name: string, started: bool)
      requires Valid() && Deliverable(arrivals) && Read() == []
      modifies this`readIdx, buf
      ensures r == Verdict(Delivered(arrivals), Cut(arrivals))
      ensures r.Found? ==> name == CString(r.line + [NUL], 0)
      ensures started <==> r.Found? && access(name) && pid != -1
    {
      FeedIsVerdict([], arrivals);
      assert [] + Delivered(arrivals) == Delivered(arrivals);
      var left;
      r, name, started, left := Process(arrivals, access, pid);
      while r.Waiting? && left != []
        invariant Valid() && Deliverable(left)
        invariant r.Waiting? ==> r == Waiting(Read()) && Feed(Read(), left) == Feed([], arrivals)
        invariant !r.Waiting? ==> r == Feed([], arrivals)
        invariant r.Found? ==> name == CString(r.line + [NUL], 0)
        invariant started <==> r.Found? && access(name) && pid != -1
        decreases |left|
      {
        r, name, started, left := Process(left, access, pid);
      }
    }
  }
}
