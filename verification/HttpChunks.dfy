/** A request of the thread-pool server that arrives in pieces: what process_read answers on any cutting
    of any stream, and when that is what it answers on the whole stream at once. */
module HttpChunks {
  import opened CStrings
  import opened RequestParser
  import opened RequestGrammar
  import opened HttpHeaders
  import opened HttpConnection

  datatype Answered = Answered(code: Code, conn: Conn, used: nat)

  /** Chunk after chunk, until the first verdict. */
  function ReadChunks(c: Conn, chunks: seq<string>): (r: Answered)
    requires c.Ordered() && chunks != []
    ensures r.conn.Ordered() && 0 < r.used <= |chunks|
    decreases |chunks|, 0
  {
    ReadFurther(ProcessRead(c.Receive(chunks[0])), chunks[1..])
  }

  /** After one read, which answered `r`. */
  function ReadFurther(r: (Code, Conn), chunks: seq<string>): (a: Answered)
    requires r.1.Ordered()
    ensures a.conn.Ordered() && 0 < a.used <= |chunks| + 1
    decreases |chunks|, 1
  {
    if !r.0.NoRequest? || chunks == [] then Answered(r.0, r.1, 1)
    else
      var rest := ReadChunks(r.1, chunks);
      rest.(used := rest.used + 1)
  }

  // ---------- Where the head of a stream ends ----------

  /** Whether the lines of a stream reach an empty one: `rest` follows it, `head` is what the header
      lines say; or the request line is invalid; or neither is seen yet. */
  datatype HeadEnd = NoEnd | Invalid | Ends(rest: string, head: Head)

  function FirstLine(s: string): string
    requires HasFirstLine(s)
  {
    s[..Break(s, LINE_END)]
  }

  function BehindFirstLine(s: string): (r: string)
    requires HasFirstLine(s)
    ensures |r| < |s|
  {
    s[Break(s, LINE_END) + 2..]
  }

  function ReadHead(s: string, phase: Phase, h: Head): HeadEnd
    decreases |s|
  {
    if !HasFirstLine(s) then NoEnd
    else
      var line, tail := FirstLine(s), BehindFirstLine(s);
      if phase.RequestLine? then (if RequestLineParse(Text(line)).ok then ReadHead(tail, Header, h) else Invalid)
      else if Blank(line) then Ends(tail, h)
      else ReadHead(tail, Header, ParseHeader(Text(line), h))
  }

  lemma BreakSkips(s: string, k: nat, stop: set<char>)
    requires k <= |s| && Free(s[..k], stop)
    ensures Break(s, stop) == k + Break(s[k..], stop)
  {
    var u := s[k..];
    var j := Break(u, stop);
    assert s == (s[..k] + u[..j]) + u[j..];
    BreakAt(s, s[..k] + u[..j], u[j..], stop);
  }

  lemma FirstLineSkips(s: string, k: nat)
    requires k <= |s| && Free(s[..k], LINE_END)
    ensures Break(s, LINE_END) == k + Break(s[k..], LINE_END)
    ensures HasFirstLine(s) <==> HasFirstLine(s[k..])
  {
    BreakSkips(s, k, LINE_END);
    var u := s[k..];
    var j := Break(u, LINE_END);
    assert j < |u| ==> u[j] == s[k + j];
    assert j + 1 < |u| ==> u[j + 1] == s[k + j + 1];
  }

  /** A complete first line stays what it is when more follows. */
  lemma FirstLineMore(s: string, more: string)
    requires HasFirstLine(s)
    ensures HasFirstLine(s + more) && FirstLine(s + more) == FirstLine(s)
    ensures BehindFirstLine(s + more) == BehindFirstLine(s) + more
  {
    var i := Break(s, LINE_END);
    assert s + more == s[..i] + (s[i..] + more);
    BreakAt(s + more, s[..i], s[i..] + more, LINE_END);
  }

  lemma BreakMore(s: string, more: string)
    ensures var j := Break(s, LINE_END);
            if j < |s| then Break(s + more, LINE_END) == j else Break(s + more, LINE_END) >= |s|
    ensures Break(s, LINE_END) + 1 < |s| ==> (HasFirstLine(s + more) <==> HasFirstLine(s))
  {
    var j := Break(s, LINE_END);
    if j < |s| {
      assert s + more == s[..j] + (s[j..] + more);
      BreakAt(s + more, s[..j], s[j..] + more, LINE_END);
    } else {
      assert (s + more)[..|s|] == s;
      BreakSkips(s + more, |s|, LINE_END);
    }
  }

  /** Without one, the first line end can only come with the new bytes. */
  lemma NoFirstLineMore(s: string, more: string)
    requires !HasFirstLine(s) && HasFirstLine(s + more)
    ensures |BehindFirstLine(s + more)| < |more|
  {
    BreakMore(s, more);
  }

  lemma {:induction false} ReadHeadMore(s: string, more: string, phase: Phase, h: Head)
    ensures var a, b := ReadHead(s, phase, h), ReadHead(s + more, phase, h);
            && (a.Ends? ==> b == Ends(a.rest + more, a.head))
            && (a.Invalid? ==> b.Invalid?)
            && (a.NoEnd? && b.Ends? ==> |b.rest| < |more|)
    decreases |s|
  {
    if HasFirstLine(s) {
      FirstLineMore(s, more);
      ReadHeadMore(BehindFirstLine(s), more, Header,
                   if phase.RequestLine? then h else ParseHeader(Text(FirstLine(s)), h));
    } else if HasFirstLine(s + more) {
      NoFirstLineMore(s, more);
      RestIsShorter(s + more, phase, h);
    }
  }

  lemma {:induction false} RestIsShorter(s: string, phase: Phase, h: Head)
    ensures var a := ReadHead(s, phase, h); a.Ends? ==> HasFirstLine(s) && |a.rest| <= |BehindFirstLine(s)|
    decreases |s|
  {
    if HasFirstLine(s) {
      RestIsShorter(BehindFirstLine(s), Header, if phase.RequestLine? then h else ParseHeader(Text(FirstLine(s)), h));
    }
  }

  lemma FirstLineOf(s: string, line: string, tail: string)
    requires FirstLineIs(s, line, tail)
    ensures HasFirstLine(s) && FirstLine(s) == line && BehindFirstLine(s) == tail
  {
    FirstLineIsUnique(s, line, tail);
  }

  /** Header lines up to an empty one: what they say together, and what follows. */
  lemma {:induction false} HeaderLinesAreRead(s: string, lines: seq<string>, empty: string, tail: string, h: Head)
    requires HeadersEndAs(s, lines, empty, tail)
    ensures ReadHead(s, Header, h) == Ends(tail, HeadOf(lines, h))
    decreases |lines|
  {
    HeadersEndFirst(s, lines, empty, tail);
    if lines == [] {
      FirstLineOf(s, empty, tail);
    } else {
      var rest := Join(lines[1..]) + empty + CRLF + tail;
      FirstLineOf(s, lines[0], rest);
      HeaderLinesAreRead(rest, lines[1..], empty, tail, ParseHeader(Text(lines[0]), h));
    }
  }

  lemma {:induction false} HeadersEndIffRead(s: string, h: Head)
    ensures !ReadHead(s, Header, h).Invalid?
    ensures ReadHead(s, Header, h).Ends? <==> HeadersEnd(s)
    decreases |s|
  {
    if HasFirstLine(s) {
      var line, tail := FirstLine(s), BehindFirstLine(s);
      FirstLineStands(s, line, tail);
      HeadersEndStep(s, line, tail);
      if !Blank(line) {
        HeadersEndIffRead(tail, ParseHeader(Text(line), h));
      }
    } else {
      NoLineNoEnd(s);
    }
  }

  lemma FirstLineStands(s: string, line: string, tail: string)
    requires HasFirstLine(s) && line == FirstLine(s) && tail == BehindFirstLine(s)
    ensures FirstLineIs(s, line, tail)
  {
    var l, t := FirstLineExists(s);
    FirstLineOf(s, l, t);
  }

  /** The head of a stream ends exactly in the streams that the grammar accepts, and is invalid exactly
      when the first line is complete and no request line. */
  lemma HeadMeetsGrammar(s: string, h: Head)
    ensures ReadHead(s, RequestLine, h).Ends? <==> Accepted(s)
    ensures ReadHead(s, RequestLine, h).Invalid?
       <==> exists line, tail :: FirstLineIs(s, line, tail) && !IsRequestLine(Text(line))
  {
    if HasFirstLine(s) {
      var line, tail := FirstLine(s), BehindFirstLine(s);
      FirstLineStands(s, line, tail);
      RequestLineMeetsGrammar(Text(line));
      AcceptedByFirstLine(s, line, tail);
      HeadersEndIffRead(tail, h);
      forall l, t | FirstLineIs(s, l, t) ensures l == line && t == tail {
        FirstLineOf(s, l, t);
      }
    } else {
      forall l, t ensures !FirstLineIs(s, l, t) {
        NoFirstLine(s, l, t);
      }
    }
  }

  /** What the head of an accepted stream says. */
  lemma HeadSays(s: string, line: string, lines: seq<string>, empty: string, tail: string, h: Head)
    requires FirstLineIs(s, line, Join(lines) + empty + CRLF + tail) && IsRequestLine(Text(line))
    requires HeadersEndAs(Join(lines) + empty + CRLF + tail, lines, empty, tail)
    ensures ReadHead(s, RequestLine, h) == Ends(tail, HeadOf(lines, h))
  {
    FirstLineOf(s, line, Join(lines) + empty + CRLF + tail);
    RequestLineMeetsGrammar(Text(line));
    HeaderLinesAreRead(Join(lines) + empty + CRLF + tail, lines, empty, tail, h);
  }

  // ---------- One read of the head ----------

  /** The bytes of the unfinished line and those behind it. */
  function Pending(c: Conn): string
    requires c.Ordered()
  {
    c.parser.buf[c.parser.start..]
  }

  lemma CleanBreak(p: Parser, s: string)
    requires Clean(p) && s == p.buf[p.start..]
    ensures var u := p.buf[p.chk..]; Break(s, LINE_END) == p.chk - p.start + Break(u, LINE_END)
    ensures HasFirstLine(s) <==> HasFirstLine(p.buf[p.chk..])
  {
    var k := p.chk - p.start;
    assert s[k..] == p.buf[p.chk..] && s[..k] == p.buf[p.start..p.chk];
    FirstLineSkips(s, k);
  }

  /** parse_line on a clean state finds the first line of the pending bytes, or none. */
  lemma CleanLine(p: Parser, s: string)
    requires Clean(p) && s == p.buf[p.start..] && HasFirstLine(s)
    ensures var e := p.start + Break(s, LINE_END);
            LineParse(p.buf, p.chk) == Line(LineOk, e + 2, p.buf[e := NUL][e + 1 := NUL])
  {
    CleanBreak(p, s);
    var u := p.buf[p.chk..];
    LineParseOk(p.buf, p.chk, u, Break(u, LINE_END));
  }

  lemma CleanNoLine(p: Parser, s: string)
    requires Clean(p) && s == p.buf[p.start..] && !HasFirstLine(s)
    ensures !LineParse(p.buf, p.chk).status.LineOk?
  {
    CleanBreak(p, s);
    var u := p.buf[p.chk..];
    LineParseNotOk(p.buf, p.chk, u, Break(u, LINE_END));
  }

  lemma StartIsClean(p: Parser, s: string)
    requires AtLineStart(p, s)
    ensures Clean(p) && p.buf[p.start..] == s
  {
  }

  lemma CleanLineCut(p: Parser, s: string, l: Line)
    requires Clean(p) && s == p.buf[p.start..] && HasFirstLine(s) && l == LineParse(p.buf, p.chk)
    ensures l.status.LineOk? && IsLineOf(l, p)
    ensures LineCut(p.(buf := l.buf, chk := l.chk), FirstLine(s), BehindFirstLine(s))
  {
    CleanLine(p, s);
    CutIsLineCut(p.(chk := p.start), p.(buf := l.buf, chk := l.chk), s, FirstLine(s), BehindFirstLine(s));
  }

  /** The switch over the check state, on a line that was just cut off. */
  lemma HeadLine(q: Conn, line: string, tail: string)
    requires !q.inBody && LineCut(q.parser, line, tail)
    ensures var r, d := HandleHead(q), HandleHead(q).conn;
            && (q.parser.phase.RequestLine? && !RequestLineParse(Text(line)).ok ==>
                  r == Done(BadRequest, d) && !d.inBody)
            && (q.parser.phase.RequestLine? && RequestLineParse(Text(line)).ok ==>
                  r == Again(d, true) && !d.inBody && d.head == q.head
                  && d.parser.phase.Header? && AtLineStart(d.parser, tail))
            && (q.parser.phase.Header? && !Blank(line) ==>
                  r == Again(d, true) && !d.inBody && d.head == ParseHeader(Text(line), q.head)
                  && d.parser.phase.Header? && AtLineStart(d.parser, tail))
            && (q.parser.phase.Header? && Blank(line) && q.head.contentLength == 0 ==>
                  r == Done(GetRequest, d) && !d.inBody)
            && (q.parser.phase.Header? && Blank(line) && q.head.contentLength != 0 ==>
                  r == Again(d, true) && d.inBody && d.head == q.head && AtLineStart(d.parser, tail))
  {
    HandleCutLine(q.parser, line, tail);
    if q.parser.phase.Header? {
      var next := q.parser.(start := q.parser.chk);
      NextLine(q.parser.buf, q.parser.start + |line|, next, tail);
      assert HandleLine(q.parser).1 == next;
    }
  }

  /** One turn of the loop on a pending first line. */
  lemma TurnOnLine(c: Conn, s: string) returns (q: Conn)
    requires Clean(c.parser) && !c.inBody && s == Pending(c) && HasFirstLine(s)
    ensures LineCut(q.parser, FirstLine(s), BehindFirstLine(s)) && Iterate(c, true) == HandleHead(q)
    ensures !q.inBody && q.head == c.head && q.parser.phase == c.parser.phase
  {
    var l := LineParse(c.parser.buf, c.parser.chk);
    CleanLineCut(c.parser, s, l);
    q := c.(parser := c.parser.(buf := l.buf, chk := l.chk));
  }

  lemma TurnOnNoLine(c: Conn, s: string)
    requires Clean(c.parser) && !c.inBody && s == Pending(c) && !HasFirstLine(s)
    ensures var i := Iterate(c, true);
            && i == Done(NoRequest, i.conn) && !i.conn.inBody && i.conn.head == c.head
            && i.conn.parser.phase == c.parser.phase && Clean(i.conn.parser) && Pending(i.conn) == s
  {
    CleanNoLine(c.parser, s);
    IterateStaysClean(c, true);
  }

  /** One read answers what the head of the pending bytes says; in front of a body it goes on with `d`,
      which stands behind the empty line. */
  lemma {:induction false} HeadRead(c: Conn, s: string) returns (d: Conn)
    requires Clean(c.parser) && !c.inBody && s == Pending(c)
    ensures d.Ordered()
    ensures var a, r := ReadHead(s, c.parser.phase, c.head), ProcessRead(c);
            && (a.NoEnd? ==> r == (NoRequest, r.1) && !r.1.inBody)
            && (a.Invalid? ==> r == (BadRequest, r.1) && !r.1.inBody)
            && (a.Ends? && a.head.contentLength == 0 ==> r == (GetRequest, r.1) && !r.1.inBody)
            && (a.Ends? && a.head.contentLength != 0 ==>
                  r == ReadOn(d, true) && d.inBody && d.head == a.head && AtLineStart(d.parser, a.rest))
    decreases |s|
  {
    d := c;
    ReadOnStep(c, true, Iterate(c, true));
    if !HasFirstLine(s) {
      TurnOnNoLine(c, s);
    } else {
      var tail := BehindFirstLine(s);
      var q := TurnOnLine(c, s);
      HeadLine(q, FirstLine(s), tail);
      d := HandleHead(q).conn;
      if HandleHead(q).Again? && !d.inBody {
        StartIsClean(d.parser, tail);
        d := HeadRead(d, tail);
      }
    }
  }

  /** A connection whose head is not complete stands, after a read, where the lines of the stream go on. */
  lemma {:induction false} HeadResumes(c: Conn, s: string, more: string)
    requires Clean(c.parser) && !c.inBody && s == Pending(c) && ReadHead(s, c.parser.phase, c.head).NoEnd?
    ensures var r := ProcessRead(c).1;
            && Clean(r.parser) && !r.inBody
            && ReadHead(Pending(r) + more, r.parser.phase, r.head) == ReadHead(s + more, c.parser.phase, c.head)
    decreases |s|
  {
    ReadStaysClean(c, true);
    ReadOnStep(c, true, Iterate(c, true));
    if !HasFirstLine(s) {
      TurnOnNoLine(c, s);
    } else {
      var tail := BehindFirstLine(s);
      FirstLineMore(s, more);
      var q := TurnOnLine(c, s);
      HeadLine(q, FirstLine(s), tail);
      var d := HandleHead(q).conn;
      StartIsClean(d.parser, tail);
      HeadResumes(d, tail, more);
    }
  }

  // ---------- One read of the body ----------

  lemma {:induction false} BodyIsNotFoundLater(c: Conn)
    requires c.inBody && c.Ordered() && |c.parser.buf| < c.head.contentLength + c.parser.chk
    ensures ReadOn(c, false).0.NoRequest?
    decreases |c.parser.buf| - c.parser.chk
  {
    var i := Iterate(c, false);
    ReadOnStep(c, false, i);
    if i.Again? {
      BodyIsNotFoundLater(i.conn);
    }
  }

  /** A read finds the body exactly when content-length bytes stand behind the check index as it begins;
      what lines it then cuts the body into makes no difference. */
  lemma BodyIsFoundIff(c: Conn)
    requires c.inBody && c.Ordered()
    ensures ProcessRead(c).0 == if |c.parser.buf| >= c.head.contentLength + c.parser.chk then GetRequest else NoRequest
  {
    var i := Iterate(c, true);
    ReadOnStep(c, true, i);
    if i.Again? {
      BodyIsNotFoundLater(i.conn);
    }
  }

  /** What parse_line leaves unread, call after call: it gets over all complete lines, and up to the next
      line end that is bad or unfinished. */
  function Unread(s: string): (u: string)
    ensures |u| <= |s|
    decreases |s|
  {
    if HasFirstLine(s) then Unread(BehindFirstLine(s)) else s[Break(s, LINE_END)..]
  }

  /** Nothing is left to get over: no byte at all, or a line end that is bad or unfinished. */
  predicate AtStop(v: string) {
    v == "" || ((v[0] == CR || v[0] == LF) && (|v| > 1 ==> v[0] == LF || v[1] != LF))
  }

  lemma {:induction false} UnreadIsAtStop(s: string)
    ensures AtStop(Unread(s))
    decreases |s|
  {
    if HasFirstLine(s) {
      UnreadIsAtStop(BehindFirstLine(s));
    }
  }

  lemma StopIsUnread(v: string)
    requires AtStop(v)
    ensures Unread(v) == v
  {
    assert v != "" ==> v[0] in LINE_END;
  }

  lemma TailOfTail(s: string, i: nat, k: nat)
    requires i + k <= |s|
    ensures s[i..][k..] == s[i + k..]
  {
  }

  lemma UnreadAtLine(s: string, tail: string)
    requires HasFirstLine(s) && tail == BehindFirstLine(s)
    ensures Unread(s) == Unread(tail)
  {
  }

  lemma UnreadAtNoLine(s: string)
    requires !HasFirstLine(s)
    ensures Unread(s) == s[Break(s, LINE_END)..]
  {
  }

  lemma UnreadSkips(s: string, head: string, u: string)
    requires s == head + u && Free(head, LINE_END)
    ensures Unread(s) == Unread(u)
  {
    var k, i := |head|, Break(u, LINE_END);
    assert s[..k] == head && s[k..] == u;
    FirstLineSkips(s, k);
    if HasFirstLine(u) {
      TailOfTail(s, k, i + 2);
      UnreadAtLine(s, u[i + 2..]);
      UnreadAtLine(u, u[i + 2..]);
    } else {
      TailOfTail(s, k, i);
      UnreadAtNoLine(s);
      UnreadAtNoLine(u);
    }
  }

  /** It goes on there when more bytes come. */
  lemma {:induction false} UnreadMore(s: string, more: string)
    ensures Unread(s + more) == Unread(Unread(s) + more)
    decreases |s|
  {
    if HasFirstLine(s) {
      var tail := BehindFirstLine(s);
      FirstLineMore(s, more);
      UnreadAtLine(s, tail);
      UnreadAtLine(s + more, tail + more);
      UnreadMore(tail, more);
    } else {
      var i := Break(s, LINE_END);
      UnreadAtNoLine(s);
      assert s + more == s[..i] + (s[i..] + more);
      UnreadSkips(s + more, s[..i], s[i..] + more);
    }
  }

  /** The state in which a read leaves the body that it does not find. */
  ghost predicate Stopped(d: Conn, head: Head, u: string) {
    && d.inBody && d.head == head && Clean(d.parser)
    && d.parser.chk <= |d.parser.buf| && d.parser.buf[d.parser.chk..] == u
  }

  lemma {:induction false} BodyLoop(c: Conn, s: string)
    requires c.inBody && Clean(c.parser) && c.parser.start == c.parser.chk && s == c.parser.buf[c.parser.chk..]
    requires |c.parser.buf| < c.head.contentLength + c.parser.chk
    ensures var r := ReadOn(c, false); r.0.NoRequest? && Stopped(r.1, c.head, Unread(s))
    decreases |s|
  {
    if HasFirstLine(s) {
      var d := BodyLine(c, s);
      ReadOnStep(c, false, Again(d, false));
      BodyLoop(d, BehindFirstLine(s));
    } else {
      BodyNoLine(c, s);
      ReadOnStep(c, false, Iterate(c, false));
    }
  }

  /** A turn of the loop that finds a line in the body. */
  lemma BodyLine(c: Conn, s: string) returns (d: Conn)
    requires c.inBody && Clean(c.parser) && c.parser.start == c.parser.chk && s == c.parser.buf[c.parser.chk..]
    requires HasFirstLine(s) && |c.parser.buf| < c.head.contentLength + c.parser.chk
    ensures Iterate(c, false) == Again(d, false) && d.inBody && d.head == c.head && Clean(d.parser)
    ensures d.parser.start == d.parser.chk && d.parser.buf[d.parser.chk..] == BehindFirstLine(s)
    ensures |d.parser.buf| == |c.parser.buf| && c.parser.chk < d.parser.chk
  {
    var l := LineParse(c.parser.buf, c.parser.chk);
    CleanLineCut(c.parser, s, l);
    IterateStaysClean(c, false);
    d := Iterate(c, false).conn;
  }

  /** A turn that finds none: it leaves the check index at the first line end, or behind all bytes. */
  lemma BodyNoLine(c: Conn, s: string)
    requires c.inBody && Clean(c.parser) && c.parser.start == c.parser.chk && s == c.parser.buf[c.parser.chk..]
    requires !HasFirstLine(s)
    ensures var t := Iterate(c, false); t == Done(NoRequest, t.conn) && Stopped(t.conn, c.head, Unread(s))
  {
    var i := Break(s, LINE_END);
    IterateStaysClean(c, false);
    CleanNoLine(c.parser, s);
    LineParseStopsAt(c.parser.buf, c.parser.chk, s, i);
    assert c.parser.buf[c.parser.chk + i..] == s[i..];
  }

  lemma LineParseStopsAt(buf: string, chk: nat, s: string, i: nat)
    requires chk <= |buf| && buf[chk..] == s && i == Break(s, LINE_END)
    ensures !LineParse(buf, chk).status.LineOk? ==> LineParse(buf, chk).chk == chk + i
  {
    LineParseJumps(buf, chk, s);
    assert i < |s| ==> buf[chk + i] == s[i];
  }

  /** One read, on the bytes behind the check index. */
  lemma BodyRead(c: Conn, s: string)
    requires c.inBody && Clean(c.parser) && s == c.parser.buf[c.parser.chk..]
    ensures var r := ReadOn(c, true);
            && r.0 == (if |s| >= c.head.contentLength then GetRequest else NoRequest)
            && (|s| < c.head.contentLength ==> Stopped(r.1, c.head, Unread(s)))
  {
    var i := Iterate(c, true);
    ReadOnStep(c, true, i);
    if |s| < c.head.contentLength {
      ParseBodyStaysClean(c);
      BodyLoop(i.conn, s);
    }
  }

  // ---------- Any cutting of a request ----------

  /** What has arrived of the body while `later` bytes are still to come. */
  function Arrived(body: string, later: nat): string {
    if later <= |body| then body[..|body| - later] else ""
  }

  /** The read of chunk `i` finds the body: the head is over, and what the reads before left unread of
      the body makes content-length bytes together with what this read brings of it. */
  predicate Completes(body: string, contentLength: int, chunks: seq<string>, i: nat)
    requires i < |chunks|
  {
    var before, later := |Concat(chunks[i..])|, |Concat(chunks[i + 1..])|;
    var known, now := Arrived(body, before), Arrived(body, later);
    later <= |body| && |Unread(known)| + |now| - |known| >= contentLength
  }

  ghost predicate SomeReadCompletes(body: string, contentLength: int, chunks: seq<string>) {
    exists i: nat :: i < |chunks| && Completes(body, contentLength, chunks, i)
  }

  lemma CompletesNext(body: string, contentLength: int, chunks: seq<string>, i: nat)
    requires i + 1 < |chunks|
    ensures Completes(body, contentLength, chunks, i + 1) <==> Completes(body, contentLength, chunks[1..], i)
  {
    assert chunks[1..][i..] == chunks[i + 1..] && chunks[1..][i + 1..] == chunks[i + 2..];
  }

  /** Either the first read completes the body, or one of the others. */
  lemma CompletesFirstOrLater(body: string, contentLength: int, chunks: seq<string>)
    requires chunks != []
    ensures SomeReadCompletes(body, contentLength, chunks)
       <==> Completes(body, contentLength, chunks, 0) || SomeReadCompletes(body, contentLength, chunks[1..])
  {
    if i: nat :| i < |chunks| && Completes(body, contentLength, chunks, i) {
      if i > 0 {
        CompletesNext(body, contentLength, chunks, i - 1);
        assert Completes(body, contentLength, chunks[1..], i - 1);
      }
    }
    if i: nat :| i < |chunks[1..]| && Completes(body, contentLength, chunks[1..], i) {
      CompletesNext(body, contentLength, chunks, i);
      assert Completes(body, contentLength, chunks, i + 1);
    }
  }

  lemma {:induction false} ConcatSuffix(chunks: seq<string>, i: nat)
    requires i <= |chunks|
    ensures |Concat(chunks[i..])| <= |Concat(chunks)|
  {
    if i > 0 {
      assert chunks[1..][i - 1..] == chunks[i..];
      ConcatSuffix(chunks[1..], i - 1);
    } else {
      assert chunks[0..] == chunks;
    }
  }

  lemma ArrivedOf(u: string, rest: string, later: nat)
    requires later <= |rest|
    ensures Arrived(u + rest, later) == u + rest[..|rest| - later]
  {
  }

  /** The bytes that were taken for lines may be left out of the account. */
  lemma CompletesBehindLines(u: string, v: string, contentLength: int, chunks: seq<string>, i: nat)
    requires i < |chunks| && v == Unread(u)
    ensures Completes(u + Concat(chunks), contentLength, chunks, i)
       <==> Completes(v + Concat(chunks), contentLength, chunks, i)
  {
    var rest, before, later := Concat(chunks), |Concat(chunks[i..])|, |Concat(chunks[i + 1..])|;
    ConcatSuffix(chunks, i);
    ConcatSuffix(chunks, i + 1);
    ArrivedOf(u, rest, before);
    ArrivedOf(v, rest, before);
    ArrivedOf(u, rest, later);
    ArrivedOf(v, rest, later);
    var x := rest[..|rest| - before];
    UnreadMore(u, x);
    UnreadTwice(u);
    UnreadMore(v, x);
  }

  lemma UnreadTwice(u: string)
    ensures Unread(Unread(u)) == Unread(u)
  {
    UnreadIsAtStop(u);
    StopIsUnread(Unread(u));
  }

  lemma SomeBehindLines(u: string, contentLength: int, chunks: seq<string>)
    ensures SomeReadCompletes(u + Concat(chunks), contentLength, chunks)
       <==> SomeReadCompletes(Unread(u) + Concat(chunks), contentLength, chunks)
  {
    forall i: nat | i < |chunks|
      ensures Completes(u + Concat(chunks), contentLength, chunks, i)
         <==> Completes(Unread(u) + Concat(chunks), contentLength, chunks, i)
    {
      CompletesBehindLines(u, Unread(u), contentLength, chunks, i);
    }
  }

  /** The end of both inductions: what the first read decides, and what is left to the others. */
  lemma BodyGoesOn(u: string, d: Conn, chunks: seq<string>)
    requires |u| < d.head.contentLength && Stopped(d, d.head, Unread(u))
    ensures chunks == [] ==> !SomeReadCompletes(u + Concat(chunks), d.head.contentLength, chunks)
    ensures chunks != [] ==>
              && d.Ordered()
              && ReadChunks(d, chunks).code ==
                 if SomeReadCompletes(u + Concat(chunks), d.head.contentLength, chunks) then GetRequest else NoRequest
    decreases |chunks|, 1
  {
    if chunks != [] {
      UnreadIsAtStop(u);
      BodyChunks(d, Unread(u), chunks);
      SomeBehindLines(u, d.head.contentLength, chunks);
    }
  }

  /** Chunks that arrive in the body, whatever bytes they hold: the request is complete exactly when the
      read of one of them completes it. */
  lemma {:induction false} BodyChunks(c: Conn, v: string, chunks: seq<string>)
    requires c.inBody && Clean(c.parser) && v == c.parser.buf[c.parser.chk..] && AtStop(v) && chunks != []
    ensures ReadChunks(c, chunks).code ==
              if SomeReadCompletes(v + Concat(chunks), c.head.contentLength, chunks) then GetRequest else NoRequest
    decreases |chunks|, 0
  {
    var u := v + chunks[0];
    var r := BodyFirst(c, v, u, chunks);
    FirstOfConcat(v, chunks);
    FirstOfBody(v + Concat(chunks), v, u, c.head.contentLength, chunks);
    if |u| < c.head.contentLength {
      BodyGoesOn(u, r.1, chunks[1..]);
    }
  }

  lemma BodyFirst(c: Conn, v: string, u: string, chunks: seq<string>) returns (r: (Code, Conn))
    requires c.inBody && Clean(c.parser) && v == c.parser.buf[c.parser.chk..] && chunks != [] && u == v + chunks[0]
    ensures r.1.Ordered() && ReadChunks(c, chunks) == ReadFurther(r, chunks[1..])
    ensures r.0 == if |u| >= c.head.contentLength then GetRequest else NoRequest
    ensures |u| < c.head.contentLength ==> Stopped(r.1, c.head, Unread(u))
  {
    var d := c.Receive(chunks[0]);
    ReceiveStaysClean(c.parser, chunks[0]);
    assert d.parser.buf[d.parser.chk..] == u;
    BodyRead(d, u);
    r := ProcessRead(d);
  }

  lemma FirstCompletes(body: string, v: string, u: string, contentLength: int, chunks: seq<string>)
    requires chunks != [] && AtStop(v) && |u| + |Concat(chunks[1..])| == |body|
    requires Arrived(body, |Concat(chunks)|) == v && Arrived(body, |Concat(chunks[1..])|) == u
    ensures Completes(body, contentLength, chunks, 0) <==> |u| >= contentLength
  {
    StopIsUnread(v);
    assert chunks[0..] == chunks;
  }

  lemma ArrivedLast(u: string, rest: string)
    ensures Arrived(u + rest, |rest|) == u
  {
  }

  lemma FirstOfBody(body: string, v: string, u: string, contentLength: int, chunks: seq<string>)
    requires chunks != [] && AtStop(v) && body == v + Concat(chunks) && body == u + Concat(chunks[1..])
    ensures SomeReadCompletes(body, contentLength, chunks)
       <==> |u| >= contentLength || SomeReadCompletes(body, contentLength, chunks[1..])
  {
    ArrivedLast(v, Concat(chunks));
    ArrivedLast(u, Concat(chunks[1..]));
    FirstCompletes(body, v, u, contentLength, chunks);
    CompletesFirstOrLater(body, contentLength, chunks);
  }

  lemma FirstOfConcat(v: string, chunks: seq<string>)
    requires chunks != []
    ensures v + Concat(chunks) == v + chunks[0] + Concat(chunks[1..])
  {
  }

  /** A connection between two reads that still waits for the end of a head. */
  ghost predicate AwaitsHead(c: Conn) {
    Clean(c.parser) && !c.inBody && ReadHead(Pending(c), c.parser.phase, c.head).NoEnd?
  }

  /** The head of everything that has arrived and will arrive. */
  ghost function WholeHead(c: Conn, chunks: seq<string>): HeadEnd
    requires c.Ordered()
  {
    ReadHead(Pending(c) + Concat(chunks), c.parser.phase, c.head)
  }

  ghost function ChunkedAnswer(whole: HeadEnd, chunks: seq<string>): Code {
    match whole
    case NoEnd => NoRequest
    case Invalid => BadRequest
    case Ends(rest, head) =>
      if head.contentLength == 0 || SomeReadCompletes(rest, head.contentLength, chunks) then GetRequest else NoRequest
  }

  /** The answer on everything at once. */
  ghost function AnswerAtOnce(whole: HeadEnd): Code {
    match whole
    case NoEnd => NoRequest
    case Invalid => BadRequest
    case Ends(rest, head) => if head.contentLength == 0 || |rest| >= head.contentLength then GetRequest else NoRequest
  }

  lemma PendingMore(c: Conn, chunk: string)
    requires Clean(c.parser)
    ensures Clean(c.Receive(chunk).parser) && Pending(c.Receive(chunk)) == Pending(c) + chunk
  {
    ReceiveStaysClean(c.parser, chunk);
  }

  /** While nothing of the body has arrived, a read completes it when it brings enough of it. */
  lemma NothingArrived(body: string, contentLength: int, chunks: seq<string>)
    requires chunks != [] && |body| < |Concat(chunks)|
    ensures var later := |Concat(chunks[1..])|;
            Completes(body, contentLength, chunks, 0) <==> later <= |body| && |body| - later >= contentLength
  {
    assert chunks[0..] == chunks;
    assert Unread("") == "";
  }

  /** The read in which the head ends. */
  lemma HeadEndsNow(e: Conn, rest: string, head: Head, r: (Code, Conn), chunks: seq<string>)
    requires AtLineStart(e.parser, rest) && e.inBody && e.head == head && r == ReadOn(e, true)
    ensures ReadFurther(r, chunks).code ==
              if |rest| >= head.contentLength || SomeReadCompletes(rest + Concat(chunks), head.contentLength, chunks)
              then GetRequest else NoRequest
  {
    StartIsClean(e.parser, rest);
    BodyRead(e, rest);
    if |rest| < head.contentLength {
      BodyGoesOn(rest, r.1, chunks);
    }
  }

  lemma WaitsStill(c: Conn, s: string)
    requires Clean(c.parser) && !c.inBody && s == Pending(c) && ReadHead(s, c.parser.phase, c.head).NoEnd?
    ensures AwaitsHead(ProcessRead(c).1)
  {
    HeadResumes(c, s, "");
    var d := ProcessRead(c).1;
    assert s + "" == s && Pending(d) + "" == Pending(d);
  }

  /** What a cut-up request is answered, for every stream and every cutting: what its head says, and for
      a body whether the read of one of the chunks completes it. */
  lemma {:induction false} ChunksAreAnswered(c: Conn, chunks: seq<string>)
    requires AwaitsHead(c) && chunks != []
    ensures ReadChunks(c, chunks).code == ChunkedAnswer(WholeHead(c, chunks), chunks)
    decreases |chunks|
  {
    var d, s, later := c.Receive(chunks[0]), Pending(c) + chunks[0], Concat(chunks[1..]);
    PendingMore(c, chunks[0]);
    FirstOfConcat(Pending(c), chunks);
    var a, whole, r := ReadHead(s, c.parser.phase, c.head), WholeHead(c, chunks), ProcessRead(d);
    var e := HeadRead(d, s);
    ReadHeadMore(s, later, c.parser.phase, c.head);
    assert ReadChunks(c, chunks) == ReadFurther(r, chunks[1..]);
    FirstAnswer(c, chunks);
    if a.NoEnd? {
      WaitsStill(d, s);
      HeadResumes(d, s, later);
      if |chunks| == 1 {
        assert chunks[1..] == [] && s + later == s;
      } else {
        ChunksAreAnswered(r.1, chunks[1..]);
      }
    } else if a.Ends? && a.head.contentLength != 0 {
      HeadEndsNow(e, a.rest, a.head, r, chunks[1..]);
    }
  }

  lemma FirstAnswer(c: Conn, chunks: seq<string>)
    requires AwaitsHead(c) && chunks != []
    ensures var w, later := WholeHead(c, chunks), |Concat(chunks[1..])|;
            w.Ends? ==>
              var cl := w.head.contentLength;
              SomeReadCompletes(w.rest, cl, chunks)
              <==> (later <= |w.rest| && |w.rest| - later >= cl) || SomeReadCompletes(w.rest, cl, chunks[1..])
  {
    var w := WholeHead(c, chunks);
    if w.Ends? {
      ReadHeadMore(Pending(c), Concat(chunks), c.parser.phase, c.head);
      NothingArrived(w.rest, w.head.contentLength, chunks);
      CompletesFirstOrLater(w.rest, w.head.contentLength, chunks);
    }
  }

  lemma StreamIsAnswered(c: Conn, s: string)
    requires Clean(c.parser) && !c.inBody
    ensures ProcessRead(c.Receive(s)).0 == AnswerAtOnce(ReadHead(Pending(c) + s, c.parser.phase, c.head))
  {
    PendingMore(c, s);
    var e := HeadRead(c.Receive(s), Pending(c) + s);
    var a := ReadHead(Pending(c) + s, c.parser.phase, c.head);
    if a.Ends? && a.head.contentLength != 0 {
      StartIsClean(e.parser, a.rest);
      BodyRead(e, a.rest);
    }
  }

  /** The head announces a body. */
  ghost predicate HasBody(whole: HeadEnd) {
    whole.Ends? && whole.head.contentLength != 0
  }

  lemma CompletingNeedsAll(body: string, contentLength: int, chunks: seq<string>)
    requires SomeReadCompletes(body, contentLength, chunks)
    ensures |body| >= contentLength
  {
    var i: nat :| i < |chunks| && Completes(body, contentLength, chunks, i);
  }

  /** Chunks are answered as the whole stream at once exactly when the head announces no body, or some
      read completes the body, or all the chunks together do not bring enough of it. */
  lemma ChunksAreAnsweredAsAtOnceIff(c: Conn, chunks: seq<string>)
    requires AwaitsHead(c) && chunks != []
    ensures var w := WholeHead(c, chunks);
            ReadChunks(c, chunks).code == ProcessRead(c.Receive(Concat(chunks))).0
            <==> !HasBody(w) || |w.rest| < w.head.contentLength
                 || SomeReadCompletes(w.rest, w.head.contentLength, chunks)
  {
    ChunksAreAnswered(c, chunks);
    StreamIsAnswered(c, Concat(chunks));
    var w := WholeHead(c, chunks);
    if w.Ends? && SomeReadCompletes(w.rest, w.head.contentLength, chunks) {
      CompletingNeedsAll(w.rest, w.head.contentLength, chunks);
    }
  }

  lemma NothingUnread(body: string)
    requires Free(body, LINE_END)
    ensures Unread(body) == ""
  {
  }

  /** In a body without line ends the bytes of earlier reads do not count at all: the read that completes
      it brings content-length bytes of it by itself. */
  lemma OneReadBringsTheBody(body: string, contentLength: int, chunks: seq<string>, i: nat)
    requires i < |chunks| && Free(body, LINE_END)
    ensures var before, later := |Concat(chunks[i..])|, |Concat(chunks[i + 1..])|;
            Completes(body, contentLength, chunks, i)
            <==> later <= |body| && |Arrived(body, later)| - |Arrived(body, before)| >= contentLength
  {
    NothingUnread(Arrived(body, |Concat(chunks[i..])|));
  }

  // ---------- Without a body the state is the same too ----------

  /** The first chunk and the rest of the stream. */
  lemma FirstChunk(c: Conn, chunk: string, rest: string, r: (Code, Conn), whole: (Code, Conn))
    requires c.Ordered() && !c.inBody && r == ReadOn(c.Receive(chunk), true)
    requires whole == ReadOn(c.Receive(chunk + rest), true) && !whole.1.inBody
    ensures !r.1.inBody
    ensures whole == if r.0.NoRequest? then ReadOn(r.1.Receive(rest), true) else (r.0, r.1.Receive(rest))
  {
    ReceiveTwice(c.parser, chunk, rest);
    ReadExtend(c.Receive(chunk), rest);
  }

  lemma NothingMore(c: Conn)
    ensures c.Receive("") == c
  {
    assert c.parser.buf + "" == c.parser.buf;
  }

  lemma {:induction false} ChunksOutsideBody(c: Conn, chunks: seq<string>)
    requires c.Ordered() && !c.inBody && chunks != []
    requires !ProcessRead(c.Receive(Concat(chunks))).1.inBody
    ensures var f := ReadChunks(c, chunks);
            ProcessRead(c.Receive(Concat(chunks))) == (f.code, f.conn.Receive(Concat(chunks[f.used..])))
    decreases |chunks|
  {
    var r, whole := ProcessRead(c.Receive(chunks[0])), ProcessRead(c.Receive(Concat(chunks)));
    FirstChunk(c, chunks[0], Concat(chunks[1..]), r, whole);
    if |chunks| == 1 {
      assert chunks[1..] == [];
      NothingMore(r.1);
      NothingMore(c.Receive(chunks[0]));
      assert chunks[0] + "" == chunks[0];
    } else if r.0.NoRequest? {
      ChunksOutsideBody(r.1, chunks[1..]);
      var f := ReadChunks(r.1, chunks[1..]);
      assert chunks[1..][f.used..] == chunks[f.used + 1..];
    }
  }

  /** When the header lines before the first empty line leave the content length at 0, code, indices,
      phase, fields and buffer are the same however the stream is cut. */
  lemma RequestChunksDoNotMatter(c: Conn, chunks: seq<string>)
    requires Clean(c.parser) && !c.inBody && chunks != [] && !HasBody(WholeHead(c, chunks))
    ensures var f := ReadChunks(c, chunks);
            ProcessRead(c.Receive(Concat(chunks))) == (f.code, f.conn.Receive(Concat(chunks[f.used..])))
  {
    PendingMore(c, Concat(chunks));
    var _ := HeadRead(c.Receive(Concat(chunks)), Pending(c) + Concat(chunks));
    ChunksOutsideBody(c, chunks);
  }

  /** A body in two reads is missed, which in one read is found. */
  lemma SplitBodyIsMissed(c: Conn, a: string, b: string)
    requires c.inBody && Clean(c.parser) && c.parser.chk == |c.parser.buf|
    requires a != "" && b != "" && c.head.contentLength == |a + b| && Free(a, LINE_END) && Free(b, LINE_END)
    ensures ProcessRead(c.Receive(a + b)).0 == GetRequest && ReadChunks(c, [a, b]).code == NoRequest
  {
    var chunks, body := [a, b], a + b;
    BodyIsFoundIff(c.Receive(body));
    assert chunks[0..] == [a, b] && chunks[1..] == [b] && chunks[2..] == [];
    assert Concat(chunks) == body && Concat([b]) == b;
    forall i: nat | i < 2 ensures !Completes(body, |body|, chunks, i) {
      OneReadBringsTheBody(body, |body|, chunks, i);
    }
    BodyChunks(c, "", chunks);
    assert "" + body == body;
  }
}
