/** The incremental HTTP request parser as functions on the received bytes:
    `buf` holds what was received so far, with the NULs written into it. */
module RequestParser {
  import opened CStrings

  datatype Phase = RequestLine | Header
  datatype LineStatus = LineOk | LineBad | LineOpen
  datatype Code = NoRequest | GetRequest | BadRequest

  /** `chk` is the next byte to look at, `start` where the unfinished line begins. */
  datatype Parser = Parser(buf: string, chk: nat, start: nat, phase: Phase) {
    predicate Ordered() {
      start <= chk <= |buf|
    }

    function Receive(chunk: string): Parser {
      this.(buf := buf + chunk)
    }
  }

  const FRESH := Parser("", 0, 0, RequestLine)

  datatype Line = Line(status: LineStatus, chk: nat, buf: string)

  /** Looks for the end of the current line from `chk` on, cutting it off with NULs. */
  function LineParse(buf: string, chk: nat): (r: Line)
    requires chk <= |buf|
    ensures |r.buf| == |buf| && chk <= r.chk <= |buf|
    ensures r.status.LineOk? ==> chk < r.chk && r.buf[r.chk - 1] == NUL
    ensures !r.status.LineOk? ==> r.buf == buf
    decreases |buf| - chk
  {
    if chk == |buf| then
      Line(LineOpen, chk, buf)
    else if buf[chk] == CR then
      if chk + 1 == |buf| then Line(LineOpen, chk, buf)
      else if buf[chk + 1] == LF then Line(LineOk, chk + 2, buf[chk := NUL][chk + 1 := NUL])
      else Line(LineBad, chk, buf)
    else if buf[chk] == LF then
      if chk > 1 && buf[chk - 1] == CR then Line(LineOk, chk + 1, buf[chk - 1 := NUL][chk := NUL])
      else Line(LineBad, chk, buf)
    else
      LineParse(buf, chk + 1)
  }

  /** What the code accepts as a request target. */
  predicate TargetOk(url: string) {
    if StartsIgnoringCase(url, "http://") then Break(url[7..], {'/'}) < |url| - 7
    else |url| > 0 && url[0] == '/'
  }

  datatype Cut = Cut(ok: bool, line: string)

  datatype Split = NoBlank | Split(word: string, rest: string)

  /** strpbrk then strspn: the word up to the first blank, and what follows the run of blanks. */
  function SplitWord(s: string): (r: Split)
    ensures r.NoBlank? <==> Free(s, BLANK)
    ensures r.Split? ==> |r.word| < |s| && |r.word| + |r.rest| < |s|
  {
    var k := Break(s, BLANK);
    if k == |s| then NoBlank
    else
      var after := s[k + 1..];
      Split(s[..k], after[Span(after, BLANK)..])
  }

  /** The second half of a request line: `more` is the end of `line`, behind the method. */
  function TargetParse(line: string, more: string): (r: Cut)
    requires |more| < |line|
    ensures |r.line| == |line|
  {
    match SplitWord(more)
    case NoBlank => Cut(false, line)
    case Split(url, version) =>
      Cut(EqualIgnoringCase(version, "HTTP/1.1") && TargetOk(url), line[|line| - |more| + |url| := NUL])
  }

  /** Splits a request line in place; `line` is the line with the separators cut. */
  function RequestLineParse(line: string): (r: Cut)
    ensures |r.line| == |line|
  {
    match SplitWord(line)
    case NoBlank => Cut(false, line)
    case Split(verb, more) =>
      var cut := line[|verb| := NUL];
      if EqualIgnoringCase(verb, "GET") then TargetParse(cut, more) else Cut(false, cut)
  }

  /** One complete line: the request line or a header line, from `start` to its NUL. */
  function HandleLine(p: Parser): (r: (Code, Parser))
    requires p.Ordered()
    ensures |r.1.buf| == |p.buf| && r.1.chk == r.1.start == p.chk
  {
    var line := CString(p.buf, p.start);
    match p.phase
    case RequestLine =>
      var cut := RequestLineParse(line);
      var buf := Overwrite(p.buf, p.start, cut.line);
      if cut.ok then (NoRequest, Parser(buf, p.chk, p.chk, Header))
      else (BadRequest, Parser(buf, p.chk, p.chk, RequestLine))
    case Header =>
      (if line == "" then GetRequest else NoRequest, p.(start := p.chk))
  }

  /** Consumes every complete line in the buffer, until a verdict or an unfinished line. */
  function ContentParse(p: Parser): (r: (Code, Parser))
    requires p.Ordered()
    ensures r.1.Ordered() && |r.1.buf| == |p.buf|
    decreases |p.buf| - p.chk
  {
    var l := LineParse(p.buf, p.chk);
    var q := p.(buf := l.buf, chk := l.chk);
    match l.status
    case LineOpen => (NoRequest, q)
    case LineBad => (BadRequest, q)
    case LineOk =>
      var r := HandleLine(q);
      if r.0.NoRequest? then ContentParse(r.1) else r
  }

  datatype Fed = Fed(code: Code, parser: Parser, used: nat)

  /** The receive loop: one chunk after the other, until the first verdict. */
  function Feed(p: Parser, chunks: seq<string>): (r: Fed)
    requires p.Ordered() && |chunks| > 0
    ensures r.parser.Ordered() && 0 < r.used <= |chunks|
    ensures r.code.NoRequest? ==> r.used == |chunks|
    decreases |chunks|
  {
    var r := ContentParse(p.Receive(chunks[0]));
    if !r.0.NoRequest? || |chunks| == 1 then Fed(r.0, r.1, 1)
    else
      var rest := Feed(r.1, chunks[1..]);
      Fed(rest.code, rest.parser, rest.used + 1)
  }

  function Concat(chunks: seq<string>): string {
    if chunks == [] then "" else chunks[0] + Concat(chunks[1..])
  }

  // ---------- Chunking does not matter ----------

  /** A finished line stays as it was when more bytes arrive; an unfinished one is resumed. */
  lemma {:induction false} LineParseExtend(buf: string, chk: nat, more: string)
    requires chk <= |buf|
    ensures var l := LineParse(buf, chk);
            LineParse(buf + more, chk) ==
              if l.status.LineOpen? then LineParse(buf + more, l.chk) else l.(buf := l.buf + more)
    decreases |buf| - chk
  {
    if chk < |buf| {
      if buf[chk] != CR && buf[chk] != LF {
        LineParseExtend(buf, chk + 1, more);
      } else if buf[chk] == CR && chk + 1 < |buf| {
        assert (buf + more)[chk := NUL][chk + 1 := NUL] == buf[chk := NUL][chk + 1 := NUL] + more;
      } else if buf[chk] == LF && chk > 1 {
        assert (buf + more)[chk - 1 := NUL][chk := NUL] == buf[chk - 1 := NUL][chk := NUL] + more;
      }
    }
  }

  lemma ReceiveTwice(p: Parser, a: string, b: string)
    ensures p.Receive(a).Receive(b) == p.Receive(a + b)
  {
    assert p.buf + a + b == p.buf + (a + b);
  }

  lemma HandleLineExtend(p: Parser, more: string)
    requires p.Ordered() && p.start < p.chk && p.buf[p.chk - 1] == NUL
    ensures HandleLine(p.Receive(more)) == var r := HandleLine(p); (r.0, r.1.Receive(more))
  {
    CStringEnds(p.buf, p.start, p.chk - 1);
    CStringExtend(p.buf, p.start, more);
    OverwriteExtend(p.buf, p.start, RequestLineParse(CString(p.buf, p.start)).line, more);
  }

  /** A verdict on a prefix is the verdict on every extension, bytes after it untouched;
      without a verdict, parsing what is there and resuming equals parsing everything. */
  lemma {:induction false} ContentParseExtend(p: Parser, more: string)
    requires p.Ordered()
    ensures var r := ContentParse(p);
            ContentParse(p.Receive(more)) ==
              if r.0.NoRequest? then ContentParse(r.1.Receive(more)) else (r.0, r.1.Receive(more))
    decreases |p.buf| - p.chk
  {
    LineParseExtend(p.buf, p.chk, more);
    var l := LineParse(p.buf, p.chk);
    var q := p.(buf := l.buf, chk := l.chk);
    if l.status.LineOk? {
      HandleLineExtend(q, more);
      var r := HandleLine(q);
      if r.0.NoRequest? {
        ContentParseExtend(r.1, more);
      }
    }
  }

  /** Feeding the chunks one by one ends in the code, indices, phase and bytes that parsing
      the whole stream at once gives; chunks after the verdict are only appended. */
  lemma {:induction false} ChunksDoNotMatter(p: Parser, chunks: seq<string>)
    requires p.Ordered() && |chunks| > 0
    decreases |chunks|
    ensures var f := Feed(p, chunks);
            ContentParse(p.Receive(Concat(chunks))) == (f.code, f.parser.Receive(Concat(chunks[f.used..])))
  {
    var q := p.Receive(chunks[0]);
    var rest := Concat(chunks[1..]);
    assert p.Receive(Concat(chunks)) == q.Receive(rest);
    ContentParseExtend(q, rest);
    var r := ContentParse(q);
    if |chunks| == 1 {
      assert r.1.Receive("") == r.1 && q.Receive("") == q;
      assert chunks[1..] == [];
    } else if r.0.NoRequest? {
      ChunksDoNotMatter(r.1, chunks[1..]);
      var f := Feed(r.1, chunks[1..]);
      assert chunks[1..][f.used..] == chunks[f.used + 1..];
    }
  }

  /** Two ways of cutting up the same stream are answered alike. */
  lemma SplitsAgree(p: Parser, a: seq<string>, b: seq<string>)
    requires p.Ordered() && |a| > 0 && |b| > 0 && Concat(a) == Concat(b)
    ensures var f, g := Feed(p, a), Feed(p, b);
            && f.code == g.code && f.parser.chk == g.parser.chk
            && f.parser.start == g.parser.start && f.parser.phase == g.parser.phase
            && f.parser.buf + Concat(a[f.used..]) == g.parser.buf + Concat(b[g.used..])
  {
    ChunksDoNotMatter(p, a);
    ChunksDoNotMatter(p, b);
  }

  // ---------- No carriage return is skipped ----------

  /** Between calls the unfinished line up to `chk` has no CR and no LF. */
  predicate Clean(p: Parser) {
    && p.Ordered()
    && Free(p.buf[p.start..p.chk], LINE_END)
    && (p.chk > 0 ==> p.buf[p.chk - 1] != CR)
  }

  /** The line splitter without the branch that finds the CR before the LF it stopped at. */
  function LineParseForward(buf: string, chk: nat): (r: Line)
    requires chk <= |buf|
    decreases |buf| - chk
  {
    if chk == |buf| then Line(LineOpen, chk, buf)
    else if buf[chk] == LF then Line(LineBad, chk, buf)
    else if buf[chk] != CR then LineParseForward(buf, chk + 1)
    else if chk + 1 == |buf| then Line(LineOpen, chk, buf)
    else if buf[chk + 1] == LF then Line(LineOk, chk + 2, buf[chk := NUL][chk + 1 := NUL])
    else Line(LineBad, chk, buf)
  }

  lemma {:induction false} LineParseIsForward(buf: string, chk: nat)
    requires chk <= |buf| && (chk > 0 ==> buf[chk - 1] != CR)
    ensures var l := LineParse(buf, chk);
            && l == LineParseForward(buf, chk)
            && (l.status.LineOk? ==> chk + 2 <= l.chk && buf[l.chk - 2] == CR && buf[l.chk - 1] == LF)
    decreases |buf| - chk
  {
    if chk < |buf| && buf[chk] != CR && buf[chk] != LF {
      LineParseIsForward(buf, chk + 1);
    }
  }

  lemma {:induction false} UnfinishedIsFree(buf: string, start: nat, chk: nat)
    requires start <= chk <= |buf| && (chk > 0 ==> buf[chk - 1] != CR)
    requires forall i | start <= i < chk :: buf[i] !in LINE_END
    ensures !LineParse(buf, chk).status.LineOk? ==>
              var e := LineParse(buf, chk).chk;
              (forall i | start <= i < e :: buf[i] !in LINE_END) && (e > 0 ==> buf[e - 1] != CR)
    decreases |buf| - chk
  {
    if chk < |buf| && buf[chk] != CR && buf[chk] != LF {
      UnfinishedIsFree(buf, start, chk + 1);
    }
  }

  lemma FreeBytes(buf: string, start: nat, end: nat)
    requires start <= end <= |buf|
    ensures Free(buf[start..end], LINE_END) <==> forall i | start <= i < end :: buf[i] !in LINE_END
  {
    if Free(buf[start..end], LINE_END) {
      assert forall i | start <= i < end :: buf[i] == buf[start..end][i - start];
    }
  }

  /** When the byte before `chk` is no CR, the LF branch never succeeds, and the bytes
      passed over hold no CR and no LF. */
  lemma LineFeedBranchIsDead(buf: string, start: nat, chk: nat)
    requires start <= chk <= |buf| && (chk > 0 ==> buf[chk - 1] != CR)
    requires Free(buf[start..chk], LINE_END)
    ensures var l := LineParse(buf, chk);
            && l == LineParseForward(buf, chk)
            && (!l.status.LineOk? ==> Clean(Parser(buf, l.chk, start, Header)))
            && (l.status.LineOk? ==> chk + 2 <= l.chk && buf[l.chk - 2] == CR && buf[l.chk - 1] == LF)
  {
    LineParseIsForward(buf, chk);
    FreeBytes(buf, start, chk);
    UnfinishedIsFree(buf, start, chk);
    FreeBytes(buf, start, LineParse(buf, chk).chk);
  }

  /** From a clean state parse_line is the splitter without that branch. */
  lemma CleanMeansForward(p: Parser)
    requires Clean(p)
    ensures LineParse(p.buf, p.chk) == LineParseForward(p.buf, p.chk)
  {
    LineParseIsForward(p.buf, p.chk);
  }

  lemma HandleLineIsClean(p: Parser)
    requires p.Ordered() && p.start < p.chk && p.buf[p.chk - 1] == NUL
    ensures Clean(HandleLine(p).1)
  {
    CStringEnds(p.buf, p.start, p.chk - 1);
    var line := RequestLineParse(CString(p.buf, p.start)).line;
    OverwriteTail(p.buf, p.start, line, p.chk - 1);
    assert Overwrite(p.buf, p.start, line)[p.chk - 1] == p.buf[p.chk - 1..][0];
  }

  lemma AfterLineIsClean(p: Parser, l: Line)
    requires Clean(p) && l == LineParse(p.buf, p.chk)
    ensures var q := p.(buf := l.buf, chk := l.chk);
            Clean(if l.status.LineOk? then HandleLine(q).1 else q)
  {
    LineFeedBranchIsDead(p.buf, p.start, p.chk);
    if l.status.LineOk? {
      HandleLineIsClean(p.(buf := l.buf, chk := l.chk));
    }
  }

  lemma {:induction false} ContentParseStaysClean(p: Parser)
    requires Clean(p)
    ensures Clean(ContentParse(p).1)
    decreases |p.buf| - p.chk
  {
    var l := LineParse(p.buf, p.chk);
    AfterLineIsClean(p, l);
    if l.status.LineOk? {
      var r := HandleLine(p.(buf := l.buf, chk := l.chk));
      if r.0.NoRequest? {
        ContentParseStaysClean(r.1);
      }
    }
  }

  /** Every parser state reachable by feeding chunks from the start is clean. */
  lemma {:induction false} ReachableIsClean(p: Parser, chunks: seq<string>)
    requires Clean(p) && |chunks| > 0
    ensures Clean(Feed(p, chunks).parser)
    decreases |chunks|
  {
    var q := p.Receive(chunks[0]);
    assert q.buf[q.start..q.chk] == p.buf[p.start..p.chk];
    ContentParseStaysClean(q);
    var r := ContentParse(q);
    if r.0.NoRequest? && |chunks| > 1 {
      ReachableIsClean(r.1, chunks[1..]);
    }
  }
}
