/** An HTTP connection of the thread-pool server: process_read over all its calls, the header writer,
    and the proof that reading recovers what was written. */
module HttpConnection {
  import opened CStrings
  import opened RequestParser
  import opened RequestGrammar
  import opened HttpHeaders
  import RequestReader

  const READ_BUF_SIZE := 2048

  /** What init resets and process_read updates. The phase of the parser is the check state; `inBody`
      is the third one. */
  datatype Conn = Conn(parser: Parser, inBody: bool, head: Head) {
    predicate Ordered() {
      parser.Ordered()
    }

    function Receive(chunk: string): Conn {
      this.(parser := parser.Receive(chunk))
    }
  }

  const FRESH_CONN := Conn(FRESH, false, NO_HEAD)

  /** One turn of process_read's loop: it returns, or goes on with a line status that is LINE_OK or not. */
  datatype Iteration = Done(code: Code, conn: Conn) | Again(conn: Conn, ok: bool)

  function PutNul(buf: string, at: int): (r: string)
    ensures |r| == |buf|
  {
    if 0 <= at < |buf| then buf[at := NUL] else buf
  }

  /** parse_content, on the bytes from `start` on. */
  function ParseBody(c: Conn): (r: Iteration)
    requires c.Ordered()
    ensures r.conn.Ordered() && |r.conn.parser.buf| == |c.parser.buf| && r.conn.parser.chk == c.parser.chk
    ensures r.conn.inBody == c.inBody
  {
    var p := c.parser;
    if |p.buf| >= c.head.contentLength + p.chk then
      Done(GetRequest, c.(parser := p.(start := p.chk, buf := PutNul(p.buf, p.start + c.head.contentLength))))
    else
      Again(c.(parser := p.(start := p.chk)), false)
  }

  /** The line that was just cut off, as a request line or a header. */
  function HandleHead(c: Conn): (r: Iteration)
    requires c.Ordered()
    ensures r.conn.Ordered() && |r.conn.parser.buf| == |c.parser.buf| && r.conn.parser.chk == c.parser.chk
    ensures c.inBody ==> r.conn.inBody
  {
    var p := c.parser;
    var q := HandleLine(p).1;
    if p.phase.RequestLine? then
      if q.phase.Header? then Again(c.(parser := q), true) else Done(BadRequest, c.(parser := q))
    else
      var line := CString(p.buf, p.start);
      if line != "" then Again(c.(parser := q, head := ParseHeader(line, c.head)), true)
      else if c.head.contentLength != 0 then Again(c.(parser := q, inBody := true), true)
      else Done(GetRequest, c.(parser := q))
  }

  predicate IsLineOf(l: Line, p: Parser) {
    && |l.buf| == |p.buf| && p.chk <= l.chk <= |l.buf|
    && (l.status.LineOk? ==> p.chk < l.chk && l.buf[l.chk - 1] == NUL)
  }

  /** After parse_line: anything but a complete line ends the loop with NO_REQUEST, a bad line too. */
  function AfterLine(c: Conn, l: Line): (r: Iteration)
    requires c.Ordered() && IsLineOf(l, c.parser)
    ensures r.conn.Ordered() && |r.conn.parser.buf| == |c.parser.buf| && r.conn.parser.chk == l.chk
    ensures c.inBody ==> r.conn.inBody
    ensures r.Again? ==> l.status.LineOk?
  {
    var d := c.(parser := c.parser.(buf := l.buf, chk := l.chk));
    if !l.status.LineOk? then Done(NoRequest, d)
    else if c.inBody then ParseBody(d)
    else HandleHead(d)
  }

  /** A turn of the loop. */
  function Iterate(c: Conn, ok: bool): (r: Iteration)
    requires c.Ordered()
    ensures r.conn.Ordered() && |r.conn.parser.buf| == |c.parser.buf|
    ensures c.inBody ==> r.conn.inBody
    ensures r.Again? ==>
              || c.parser.chk < r.conn.parser.chk
              || (c.inBody && ok && !r.ok && r.conn.parser.chk == c.parser.chk)
  {
    if c.inBody && ok then ParseBody(c)
    else AfterLine(c, LineParse(c.parser.buf, c.parser.chk))
  }

  function ReadOn(c: Conn, ok: bool): (r: (Code, Conn))
    requires c.Ordered()
    ensures r.1.Ordered() && |r.1.parser.buf| == |c.parser.buf| && (c.inBody ==> r.1.inBody)
    decreases |c.parser.buf| - c.parser.chk, if c.inBody && ok then 1 else 0
  {
    match Iterate(c, ok)
    case Done(code, d) => (code, d)
    case Again(d, more) => ReadOn(d, more)
  }

  function ProcessRead(c: Conn): (Code, Conn)
    requires c.Ordered()
  {
    ReadOn(c, true)
  }

  /** A complete body is ended by a NUL behind its content-length bytes, where that is inside the received
      bytes; no other byte changes. */
  lemma FoundBodyIsTerminated(c: Conn, i: nat)
    requires c.Ordered() && |c.parser.buf| >= c.head.contentLength + c.parser.chk && i < |c.parser.buf|
    ensures ParseBody(c).Done?
    ensures ParseBody(c).conn.parser.buf[i]
         == if i == c.parser.start + c.head.contentLength then NUL else c.parser.buf[i]
  {
  }

  // ---------- No carriage return is skipped ----------

  /** What happens to a connection: bytes arrive, the loop of process_read turns, init starts it afresh. */
  datatype Event = Received(chunk: string) | Turned(ok: bool) | Reset

  function React(c: Conn, e: Event): (r: Conn)
    requires c.Ordered()
    ensures r.Ordered()
  {
    match e
    case Received(chunk) => c.Receive(chunk)
    case Turned(ok) => Iterate(c, ok).conn
    case Reset => FRESH_CONN
  }

  function Reached(c: Conn, events: seq<Event>): (r: Conn)
    requires c.Ordered()
    ensures r.Ordered()
  {
    if events == [] then c else React(Reached(c, events[..|events| - 1]), events[|events| - 1])
  }

  lemma ParseBodyStaysClean(c: Conn)
    requires c.Ordered() && (c.parser.chk > 0 ==> c.parser.buf[c.parser.chk - 1] != CR)
    ensures Clean(ParseBody(c).conn.parser)
  {
  }

  lemma HandleHeadIsHandleLine(c: Conn)
    requires c.Ordered()
    ensures HandleHead(c).conn.parser == HandleLine(c.parser).1
  {
  }

  lemma CutLineStaysClean(c: Conn)
    requires c.Ordered() && c.parser.start < c.parser.chk && c.parser.buf[c.parser.chk - 1] == NUL
    ensures Clean(ParseBody(c).conn.parser) && Clean(HandleHead(c).conn.parser)
  {
    ParseBodyStaysClean(c);
    HandleHeadIsHandleLine(c);
    HandleLineIsClean(c.parser);
  }

  lemma AfterLineStaysClean(c: Conn, l: Line)
    requires c.Ordered() && IsLineOf(l, c.parser)
    requires !l.status.LineOk? ==> Clean(c.parser.(buf := l.buf, chk := l.chk))
    ensures Clean(AfterLine(c, l).conn.parser)
  {
    if l.status.LineOk? {
      CutLineStaysClean(c.(parser := c.parser.(buf := l.buf, chk := l.chk)));
    }
  }

  lemma IterateStaysClean(c: Conn, ok: bool)
    requires Clean(c.parser)
    ensures Clean(Iterate(c, ok).conn.parser)
  {
    if c.inBody && ok {
      ParseBodyStaysClean(c);
    } else {
      var p := c.parser;
      LineFeedBranchIsDead(p.buf, p.start, p.chk);
      AfterLineStaysClean(c, LineParse(p.buf, p.chk));
    }
  }

  lemma ReceiveStaysClean(p: Parser, chunk: string)
    requires Clean(p)
    ensures Clean(p.Receive(chunk))
  {
    assert p.Receive(chunk).buf[p.start..p.chk] == p.buf[p.start..p.chk];
  }

  lemma ReactStaysClean(c: Conn, e: Event)
    requires Clean(c.parser)
    ensures Clean(React(c, e).parser)
  {
    match e
    case Received(chunk) => ReceiveStaysClean(c.parser, chunk);
    case Turned(ok) => IterateStaysClean(c, ok);
    case Reset =>
  }

  lemma {:induction false} ReachedIsClean(c: Conn, events: seq<Event>)
    requires Clean(c.parser)
    ensures Clean(Reached(c, events).parser)
    decreases |events|
  {
    if events != [] {
      var n := |events| - 1;
      ReachedIsClean(c, events[..n]);
      ReactStaysClean(Reached(c, events[..n]), events[n]);
    }
  }

  /** However bytes arrive and turns of the loop follow each other, the byte before the check index is
      no CR, the unfinished line holds no CR and no LF, and the next call of parse_line does not reach
      the success case of its LF branch. A stray byte that is read again at every call is included. */
  lemma NoCarriageReturnIsSkipped(c: Conn, events: seq<Event>)
    requires Clean(c.parser)
    ensures var p := Reached(c, events).parser;
            Clean(p) && LineParse(p.buf, p.chk) == LineParseForward(p.buf, p.chk)
  {
    ReachedIsClean(c, events);
    CleanMeansForward(Reached(c, events).parser);
  }

  /** A call of process_read is made of such turns. */
  lemma {:induction false} ReadingIsTurning(c: Conn, before: seq<Event>, d: Conn, ok: bool) returns (events: seq<Event>)
    requires c.Ordered() && d == Reached(c, before)
    ensures Reached(c, events) == ReadOn(d, ok).1 && before <= events
    decreases |d.parser.buf| - d.parser.chk, if d.inBody && ok then 1 else 0
  {
    events := before + [Turned(ok)];
    assert events[..|events| - 1] == before;
    var i := Iterate(d, ok);
    if i.Again? {
      events := ReadingIsTurning(c, events, i.conn, i.ok);
    }
  }

  /** The connection over its life: every chunk is received and read; a request that was answered is
      forgotten before the next one, unless the connection is closed. */
  function ReadAll(c: Conn, chunks: seq<string>): (r: Conn)
    requires c.Ordered()
    ensures r.Ordered()
    decreases |chunks|
  {
    if chunks == [] then c
    else
      var r := ProcessRead(c.Receive(chunks[0]));
      if r.0.NoRequest? then ReadAll(r.1, chunks[1..])
      else if r.1.head.linger then ReadAll(FRESH_CONN, chunks[1..])
      else r.1
  }

  /** Behind a read that answered a request, with keep-alive everything is read as on a new connection, and
      otherwise nothing is read any more. */
  lemma NextRequestStartsAfresh(c: Conn, chunk: string, later: seq<string>, blank: Conn)
    requires c.Ordered() && !ProcessRead(c.Receive(chunk)).0.NoRequest?
    requires blank == Conn(Parser("", 0, 0, RequestLine), false, Head(0, false, ""))
    ensures var d := ProcessRead(c.Receive(chunk)).1;
            ReadAll(c, [chunk] + later) == if d.head.linger then ReadAll(blank, later) else d
  {
    assert ([chunk] + later)[1..] == later;
  }

  /** The life of a connection is made of those events. */
  lemma {:induction false} LifeIsEvents(c: Conn, before: seq<Event>, d: Conn, chunks: seq<string>)
    returns (events: seq<Event>)
    requires c.Ordered() && d == Reached(c, before)
    ensures Reached(c, events) == ReadAll(d, chunks)
    decreases |chunks|
  {
    if chunks == [] {
      return before;
    }
    var e, r := d.Receive(chunks[0]), ProcessRead(d.Receive(chunks[0]));
    events := before + [Received(chunks[0])];
    assert events[..|events| - 1] == before;
    events := ReadingIsTurning(c, events, e, true);
    if r.0.NoRequest? {
      events := LifeIsEvents(c, events, r.1, chunks[1..]);
    } else if r.1.head.linger {
      var afresh := FRESH_CONN;
      assert (events + [Reset])[..|events|] == events;
      events := LifeIsEvents(c, events + [Reset], afresh, chunks[1..]);
    }
  }

  lemma {:induction false} ReadStaysClean(c: Conn, ok: bool)
    requires Clean(c.parser)
    ensures Clean(ReadOn(c, ok).1.parser)
    decreases |c.parser.buf| - c.parser.chk, if c.inBody && ok then 1 else 0
  {
    IterateStaysClean(c, ok);
    var i := Iterate(c, ok);
    if i.Again? {
      ReadStaysClean(i.conn, i.ok);
    }
  }

  /** Every state a connection is in between its chunks is clean. */
  lemma ConnReachableIsClean(c: Conn, chunks: seq<string>)
    requires Clean(c.parser)
    ensures Clean(ReadAll(c, chunks).parser)
  {
    var events := LifeIsEvents(c, [], c, chunks);
    ReachedIsClean(c, events);
  }

  // ---------- Chunking does not matter before the body ----------

  function Later(i: Iteration, more: string): Iteration {
    match i
    case Done(code, d) => Done(code, d.Receive(more))
    case Again(d, ok) => Again(d.Receive(more), ok)
  }

  /** Where no complete line was found, looking again finds the same: a bad byte stays bad. */
  lemma {:induction false} LineParseStays(buf: string, chk: nat)
    requires chk <= |buf|
    ensures var l := LineParse(buf, chk); !l.status.LineOk? ==> LineParse(buf, l.chk) == l
    decreases |buf| - chk
  {
    if chk < |buf| && buf[chk] != CR && buf[chk] != LF {
      LineParseStays(buf, chk + 1);
    }
  }

  lemma HandleHeadExtend(c: Conn, more: string)
    requires c.Ordered() && c.parser.start < c.parser.chk && c.parser.buf[c.parser.chk - 1] == NUL
    ensures HandleHead(c.Receive(more)) == Later(HandleHead(c), more)
  {
    HandleLineExtend(c.parser, more);
    CStringEnds(c.parser.buf, c.parser.start, c.parser.chk - 1);
    CStringExtend(c.parser.buf, c.parser.start, more);
  }

  lemma AfterLineExtend(c: Conn, l: Line, more: string)
    requires c.Ordered() && !c.inBody && IsLineOf(l, c.parser) && l.status.LineOk?
    ensures AfterLine(c.Receive(more), l.(buf := l.buf + more)) == Later(AfterLine(c, l), more)
  {
    HandleHeadExtend(c.(parser := c.parser.(buf := l.buf, chk := l.chk)), more);
  }

  lemma TurnExtend(c: Conn, more: string)
    requires c.Ordered() && !c.inBody
    ensures var i := Iterate(c, true);
            Iterate(c.Receive(more), true) ==
              if i.Done? && i.code.NoRequest? then Iterate(i.conn.Receive(more), true) else Later(i, more)
  {
    var p := c.parser;
    var l := LineParse(p.buf, p.chk);
    LineParseExtend(p.buf, p.chk, more);
    LineParseStays(p.buf + more, p.chk);
    if l.status.LineOk? {
      AfterLineExtend(c, l, more);
      HeadAnswers(c.(parser := p.(buf := l.buf, chk := l.chk)));
    }
  }

  lemma HeadAnswers(c: Conn)
    requires c.Ordered()
    ensures HandleHead(c).Done? ==> !HandleHead(c).code.NoRequest?
  {
  }

  lemma ReadOnStep(c: Conn, ok: bool, i: Iteration)
    requires c.Ordered() && i == Iterate(c, ok)
    ensures ReadOn(c, ok) == if i.Done? then (i.code, i.conn) else ReadOn(i.conn, i.ok)
  {
  }

  lemma HeadGoesOn(c: Conn)
    requires c.Ordered() && !c.inBody
    ensures Iterate(c, true).Again? ==> Iterate(c, true).ok
    ensures Iterate(c, true).Done? ==> !Iterate(c, true).conn.inBody
  {
  }

  /** Before the body: a verdict on a prefix is the verdict on every extension; without one, reading
      what is there and resuming equals reading everything, also behind a bad byte. */
  lemma {:induction false} ReadExtend(c: Conn, more: string)
    requires c.Ordered() && !c.inBody
    ensures ReadOn(c, true).1.inBody ==> ReadOn(c.Receive(more), true).1.inBody
    ensures !ReadOn(c, true).1.inBody ==>
              var r := ReadOn(c, true);
              ReadOn(c.Receive(more), true)
              == if r.0.NoRequest? then ReadOn(r.1.Receive(more), true) else (r.0, r.1.Receive(more))
    decreases |c.parser.buf| - c.parser.chk
  {
    var d, i := c.Receive(more), Iterate(c, true);
    var j := Iterate(d, true);
    TurnExtend(c, more);
    HeadGoesOn(c);
    ReadOnStep(c, true, i);
    ReadOnStep(d, true, j);
    if i.Again? && !i.conn.inBody {
      ReadExtend(i.conn, more);
    } else if i.Done? {
      ReadOnStep(i.conn.Receive(more), true, Iterate(i.conn.Receive(more), true));
    }
  }

  // ---------- Writing, then reading ----------

  /** One header line, or the empty line behind the headers. */
  lemma OneHeader(c: Conn, s: string, line: string, tail: string) returns (d: Conn)
    requires !c.inBody && c.parser.phase.Header? && AtLineStart(c.parser, s)
    requires FirstLineIs(s, line, tail) && Free(line, {NUL})
    ensures AtLineStart(d.parser, tail) && d.parser.phase.Header? && |d.parser.buf| == |c.parser.buf|
    ensures d.head == if line == "" then c.head else ParseHeader(line, c.head)
    ensures d.inBody <==> line == "" && c.head.contentLength != 0
    ensures Iterate(c, true) == if line == "" && !d.inBody then Done(GetRequest, d) else Again(d, true)
  {
    var q := FirstLineIsCut(c.parser, s, line, tail);
    HandleCutLine(q, line, tail);
    var next := q.(start := q.chk);
    NextLine(q.buf, q.start + |line|, next, tail);
    d := if line == "" then c.(parser := next, inBody := c.head.contentLength != 0)
         else c.(parser := next, head := ParseHeader(line, c.head));
  }

  /** What follows the headers when nothing is there but a content length. */
  lemma NoBodyBytes(c: Conn)
    requires c.inBody && c.parser.chk == c.parser.start == |c.parser.buf|
    ensures var r := ReadOn(c, true);
            && r.0 == (if c.head.contentLength > 0 then NoRequest else GetRequest)
            && r.1.inBody && r.1.head == c.head && r.1.parser.chk == r.1.parser.start == |c.parser.buf|
  {
    var i := Iterate(c, true);
    if c.head.contentLength > 0 {
      assert i == Again(c, false);
      assert LineParse(c.parser.buf, c.parser.chk).status.LineOpen?;
      assert Iterate(c, false) == Done(NoRequest, c);
      assert ReadOn(c, true) == ReadOn(c, false);
    }
  }

  /** For every int n and both linger flags, reading what add_headers wrote recovers n and the flag,
      consumes exactly the header block, and ends in the content state iff n != 0; the request is
      complete unless n bytes are still to come. */
  lemma HeadersRoundTrip(c: Conn, n: int, linger: bool)
    requires -INT_MAX - 1 <= n <= INT_MAX
    requires !c.inBody && c.parser.phase.Header? && c.head == NO_HEAD && AtLineStart(c.parser, HeaderText(n, linger))
    ensures var r := ProcessRead(c);
            && r.1.head == Head(n, linger, "") && (r.1.inBody <==> n != 0)
            && r.0 == (if n > 0 then NoRequest else GetRequest)
            && r.1.parser.chk == r.1.parser.start == |c.parser.buf|
  {
    var line1, line2 := "Content-Length: " + Decimal(n), "Connection: " + (if linger then "keep-alive" else "close");
    WrittenLinesAreClean(n, linger);
    var s, s1 := HeaderText(n, linger), line2 + CRLF + CRLF;
    assert s == line1 + CRLF + s1;
    assert s1 == line2 + CRLF + CRLF && CRLF == "" + CRLF + "";
    assert Free(line1, LINE_END) && Free(line2, LINE_END);
    var d1 := OneHeader(c, s, line1, s1);
    ContentLengthIsRead(n, c.head);
    var d2 := OneHeader(d1, s1, line2, CRLF);
    ConnectionIsRead(linger, d1.head);
    var d3 := OneHeader(d2, CRLF, "", "");
    assert d3.parser.buf[d3.parser.chk..] == "";
    ThreeTurns(c, d1, d2, d3);
    if n != 0 {
      NoBodyBytes(d3);
    }
  }

  lemma ThreeTurns(c: Conn, d1: Conn, d2: Conn, d3: Conn)
    requires c.Ordered() && Iterate(c, true) == Again(d1, true) && Iterate(d1, true) == Again(d2, true)
    ensures Iterate(d2, true) == Again(d3, true) ==> ReadOn(c, true) == ReadOn(d3, true)
    ensures Iterate(d2, true) == Done(GetRequest, d3) ==> ReadOn(c, true) == (GetRequest, d3)
  {
    assert ReadOn(c, true) == ReadOn(d1, true);
    assert ReadOn(d1, true) == ReadOn(d2, true);
  }

  // ---------- The connection object ----------

  class HttpConn {
    const lines: RequestReader.Reader
    var inBody: bool
    var head: Head
    const writeBuf: array<char>
    var writeIdx: nat

    ghost predicate Valid()
      reads this, lines
    {
      lines.Valid() && writeBuf != lines.buf && writeBuf.Length == WRITE_BUF_SIZE && writeIdx < WRITE_BUF_SIZE
    }

    ghost function Written(): string
      requires Valid()
      reads this, lines, writeBuf
    {
      writeBuf[..writeIdx]
    }

    ghost function View(): (c: Conn)
      requires Valid()
      reads this, lines, lines.buf
      ensures c.Ordered()
    {
      Conn(lines.View(), inBody, head)
    }

    constructor ()
      ensures Valid() && fresh(lines) && fresh(lines.buf) && fresh(writeBuf)
      ensures View() == Conn(Parser("", 0, 0, RequestLine), false, Head(0, false, ""))
      ensures Written() == "" && lines.buf.Length == 2048
    {
      lines := new RequestReader.Reader(READ_BUF_SIZE);
      writeBuf := new char[WRITE_BUF_SIZE](_ => NUL);
      inBody, head, writeIdx := false, NO_HEAD, 0;
    }

    /** add_response, with the text that the format produces; vsnprintf truncates to the space
        left and reports the full length. */
    method AddResponse(text: string) returns (ok: bool)
      requires Valid()
      modifies this`writeIdx, writeBuf
      ensures Valid() && Written() == Append(old(Written()), text)
      ensures ok <==> |text| < WRITE_BUF_SIZE - 1 - old(writeIdx)
    {
      if writeIdx >= WRITE_BUF_SIZE {
        return false;
      }
      var size := WRITE_BUF_SIZE - 1 - writeIdx;
      if size > 0 {
        var n := if |text| < size then |text| else size - 1;
        forall i | 0 <= i < n {
          writeBuf[writeIdx + i] := text[i];
        }
        writeBuf[writeIdx + n] := NUL;
      }
      if |text| >= size {
        return false;
      }
      writeIdx := writeIdx + |text|;
      return true;
    }

    /** add_headers: add_content_length, add_linger, add_blank_line */
    method AddHeaders(contentLength: int) returns (ok: bool)
      requires Valid()
      modifies this`writeIdx, writeBuf
      ensures Valid() && ok && Written() == AppendHeaders(old(Written()), contentLength, head.linger)
    {
      var _ := AddResponse(ContentLengthLine(contentLength));
      var _ := AddResponse(ConnectionLine(head.linger));
      var _ := AddResponse(CRLF);
      return true;
    }

    /** The content case of process_read. */
    method BodyTurn() returns (done: bool)
      requires Valid()
      modifies lines`startLine, lines.buf
      ensures Valid() && ParseBody(old(View())) == if done then Done(GetRequest, View()) else Again(View(), false)
    {
      var txt := lines.startLine;
      lines.startLine := lines.chkIndex;
      done := lines.readIndex >= head.contentLength + lines.chkIndex;
      var at := txt + head.contentLength;
      if done && 0 <= at < lines.readIndex {
        lines.Put(at);
      }
    }

    /** The request-line and header cases. */
    method HeadTurn() returns (done: bool, code: Code)
      requires Valid() && lines.startLine <= lines.chkIndex
      modifies this`head, this`inBody, lines`startLine, lines`chkState, lines.buf
      ensures Valid() && HandleHead(old(View())) == if done then Done(code, View()) else Again(View(), true)
    {
      ghost var c := View();
      var tmp := lines.startLine;
      lines.startLine := lines.chkIndex;
      if lines.chkState == RequestLine {
        code := lines.ParseOneLine(tmp);
        done := code == BadRequest;
      } else {
        var line := CString(lines.buf[..lines.readIndex], tmp);
        code, done := NoRequest, false;
        if line != "" {
          head := ParseHeader(line, head);
        } else if head.contentLength != 0 {
          inBody := true;
        } else {
          code, done := GetRequest, true;
        }
      }
    }

    /** One turn of the loop. */
    method Turn(ok: bool) returns (done: bool, now: bool, code: Code)
      requires Valid()
      modifies this`head, this`inBody, lines`chkIndex, lines`startLine, lines`chkState, lines.buf
      ensures Valid() && Iterate(old(View()), ok) == if done then Done(code, View()) else Again(View(), now)
    {
      if !(inBody && ok) {
        var status := lines.ParseLine();
        if status != LineOk {
          return true, ok, NoRequest;
        }
      }
      if inBody {
        done := BodyTurn();
        return done, false, GetRequest;
      } else {
        done, code := HeadTurn();
        return done, true, code;
      }
    }

    /** process_read */
    method ProcessRead() returns (code: Code)
      requires Valid()
      modifies this`head, this`inBody, lines`chkIndex, lines`startLine, lines`chkState, lines.buf
      ensures Valid() && Written() == old(Written())
      ensures (code, View()) == old(ReadOn(View(), true))
    {
      ghost var goal := ReadOn(View(), true);
      var ok := true;
      while true
        invariant Valid() && Written() == old(Written())
        invariant ReadOn(View(), ok) == goal
        decreases lines.readIndex - lines.chkIndex, if inBody && ok then 1 else 0
      {
        var done;
        done, ok, code := Turn(ok);
        if done {
          return;
        }
      }
    }
  }
}
