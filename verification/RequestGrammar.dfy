/** The language the request parser accepts, written down without the parser,
    and the proof that the parser decides exactly that language. */
module RequestGrammar {
  import opened CStrings
  import opened RequestParser

  const CRLF: string := [CR, LF]

  // ---------- The request line ----------

  ghost predicate IsTarget(u: string) {
    (|u| > 0 && u[0] == '/') || (|u| >= 7 && SameButForCase(u[..7], "http://") && '/' in u[7..])
  }

  /** `s` is a word, a run of blanks, and a rest that does not begin with a blank. */
  ghost predicate WordGap(s: string, word: string, gap: string, rest: string) {
    && s == word + gap + rest
    && (forall i | 0 <= i < |word| :: word[i] != ' ' && word[i] != '\t')
    && gap != "" && (forall i | 0 <= i < |gap| :: gap[i] == ' ' || gap[i] == '\t')
    && (rest != "" ==> rest[0] != ' ' && rest[0] != '\t')
  }

  ghost predicate RequestLineParts(line: string, verb: string, gap1: string, more: string,
                                   target: string, gap2: string, version: string) {
    && WordGap(line, verb, gap1, more) && SameButForCase(verb, "GET")
    && WordGap(more, target, gap2, version) && IsTarget(target)
    && SameButForCase(version, "HTTP/1.1")
  }

  /** GET, blanks, a target, blanks, HTTP/1.1 and nothing else. */
  ghost predicate IsRequestLine(line: string) {
    exists m, g1, more, u, g2, v :: RequestLineParts(line, m, g1, more, u, g2, v)
  }

  lemma TargetOkIs(u: string)
    ensures TargetOk(u) <==> IsTarget(u)
  {
    if |u| >= 7 {
      IgnoringCaseIs(u[..7], "http://");
    }
    if StartsIgnoringCase(u, "http://") {
      assert Lower(u[..7][0]) == 'h' && u[..7][0] == u[0];
      var rest := u[7..];
      var k := Break(rest, {'/'});
      assert k < |rest| ==> rest[k] == '/';
    }
  }

  lemma BreakAt(s: string, left: string, right: string, stop: set<char>)
    requires s == left + right && Free(left, stop) && (right != "" ==> right[0] in stop)
    ensures Break(s, stop) == |left|
  {
    assert forall i | 0 <= i < |left| :: s[i] == left[i];
    assert right != "" ==> s[|left|] == right[0];
  }

  lemma SpanAt(s: string, left: string, right: string, accept: set<char>)
    requires s == left + right && Only(left, accept) && (right != "" ==> right[0] !in accept)
    ensures Span(s, accept) == |left|
  {
    assert forall i | 0 <= i < |left| :: s[i] == left[i];
    assert right != "" ==> s[|left|] == right[0];
  }

  lemma WordGapIs(s: string, word: string, gap: string, rest: string)
    ensures WordGap(s, word, gap, rest)
       <==> && s == word + gap + rest && Free(word, BLANK) && gap != "" && Only(gap, BLANK)
            && (rest != "" ==> rest[0] !in BLANK)
  {
  }

  lemma WordGapIsSplit(s: string, word: string, gap: string, rest: string)
    requires WordGap(s, word, gap, rest)
    ensures SplitWord(s) == Split(word, rest)
  {
    WordGapIs(s, word, gap, rest);
    assert s == word + (gap + rest);
    BreakAt(s, word, gap + rest, BLANK);
    var after := s[|word| + 1..];
    assert after == gap[1..] + rest;
    SpanAt(after, gap[1..], rest, BLANK);
  }

  lemma SplitIsWordGap(s: string) returns (gap: string)
    requires SplitWord(s).Split?
    ensures WordGap(s, SplitWord(s).word, gap, SplitWord(s).rest)
  {
    var k := Break(s, BLANK);
    var after := s[k + 1..];
    var n := Span(after, BLANK);
    gap := [s[k]] + after[..n];
    assert s == s[..k] + gap + after[n..];
    WordGapIs(s, s[..k], gap, after[n..]);
  }

  /** The in-place splitter says yes to the lines of the grammar and to no others. */
  lemma RequestLineMeetsGrammar(line: string)
    ensures RequestLineParse(line).ok <==> IsRequestLine(line)
  {
    if RequestLineParse(line).ok {
      var g1 := SplitIsWordGap(line);
      var Split(verb, more) := SplitWord(line);
      var g2 := SplitIsWordGap(more);
      var Split(url, version) := SplitWord(more);
      TargetOkIs(url);
      IgnoringCaseIs(verb, "GET");
      IgnoringCaseIs(version, "HTTP/1.1");
      assert RequestLineParts(line, verb, g1, more, url, g2, version);
    }
    if IsRequestLine(line) {
      var m, g1, more, u, g2, v :| RequestLineParts(line, m, g1, more, u, g2, v);
      WordGapIsSplit(line, m, g1, more);
      WordGapIsSplit(more, u, g2, v);
      TargetOkIs(u);
      IgnoringCaseIs(m, "GET");
      IgnoringCaseIs(v, "HTTP/1.1");
    }
  }

  // ---------- The line, cut up in place ----------

  /** A NUL is written behind the first word, and behind the second when the first is GET; nothing else
      changes. */
  lemma VerbIsCut(line: string, verb: string, gap: string, more: string)
    requires WordGap(line, verb, gap, more) && (!SameButForCase(verb, "GET") || Free(more, BLANK))
    ensures RequestLineParse(line).line == line[|verb| := NUL]
  {
    WordGapIsSplit(line, verb, gap, more);
    IgnoringCaseIs(verb, "GET");
  }

  lemma CutOfGet(line: string, verb: string, more: string)
    requires SplitWord(line) == Split(verb, more) && EqualIgnoringCase(verb, "GET")
    ensures RequestLineParse(line) == TargetParse(line[|verb| := NUL], more)
  {
  }

  lemma CutOfTarget(line: string, more: string, target: string, rest: string)
    requires |more| < |line| && SplitWord(more) == Split(target, rest)
    ensures TargetParse(line, more).line == line[|line| - |more| + |target| := NUL]
  {
  }

  lemma TargetIsCut(line: string, verb: string, gap1: string, more: string, target: string, gap2: string, rest: string)
    requires WordGap(line, verb, gap1, more) && SameButForCase(verb, "GET") && WordGap(more, target, gap2, rest)
    ensures RequestLineParse(line).line == line[|verb| := NUL][|verb| + |gap1| + |target| := NUL]
  {
    WordGapIsSplit(line, verb, gap1, more);
    WordGapIsSplit(more, target, gap2, rest);
    IgnoringCaseIs(verb, "GET");
    CutOfGet(line, verb, more);
    CutOfTarget(line[|verb| := NUL], more, target, rest);
  }

  lemma NothingIsCut(line: string)
    requires Free(line, BLANK)
    ensures RequestLineParse(line).line == line
  {
  }

  /** Method, target and version of a request line are then C strings where the code points to. */
  lemma PartsAreCutOut(line: string, verb: string, gap1: string, more: string, target: string, gap2: string,
                       version: string)
    requires RequestLineParts(line, verb, gap1, more, target, gap2, version) && Free(line, {NUL})
    ensures var cut := RequestLineParse(line).line + [NUL];
            && CString(cut, 0) == verb
            && CString(cut, |verb| + |gap1|) == target
            && CString(cut, |verb| + |gap1| + |target| + |gap2|) == version
  {
    TargetIsCut(line, verb, gap1, more, target, gap2, version);
    assert line == verb + gap1 + (target + gap2 + version);
    PartsAt(line, verb, gap1, target, gap2, version);
  }

  lemma PartsAt(line: string, verb: string, gap1: string, target: string, gap2: string, version: string)
    requires line == verb + gap1 + (target + gap2 + version) && gap1 != "" && gap2 != "" && Free(line, {NUL})
    ensures var i, j := |verb|, |verb| + |gap1| + |target|;
            var cut := line[i := NUL][j := NUL] + [NUL];
            && CString(cut, 0) == verb
            && CString(cut, |verb + gap1|) == target
            && CString(cut, |verb + gap1 + target + gap2|) == version
  {
    var i, j := |verb|, |verb| + |gap1| + |target|;
    Regrouped(line, verb, gap1, target, gap2, version);
    PartIsCut(line, i, j, "", verb, gap1 + target + gap2 + version);
    PartIsCut(line, i, j, verb + gap1, target, gap2 + version);
    PartIsCut(line, i, j, verb + gap1 + target + gap2, version, "");
  }

  lemma Regrouped(line: string, verb: string, gap1: string, target: string, gap2: string, version: string)
    requires line == verb + gap1 + (target + gap2 + version)
    ensures line == "" + verb + (gap1 + target + gap2 + version)
    ensures line == (verb + gap1) + target + (gap2 + version)
    ensures line == (verb + gap1 + target + gap2) + version + ""
  {
  }

  lemma PartIsCut(line: string, i: nat, j: nat, left: string, part: string, right: string)
    requires line == left + part + right && i < |line| && j < |line| && Free(line, {NUL})
    requires var e := |left| + |part|;
             (i < |left| || i >= e) && (j < |left| || j >= e) && (e == i || e == j || e == |line|)
    ensures CString(line[i := NUL][j := NUL] + [NUL], |left|) == part
  {
    var cut, p := line[i := NUL][j := NUL] + [NUL], |left|;
    forall k | 0 <= k < |part| ensures cut[p + k] == part[k] && part[k] != NUL {
      assert line[p + k] == part[k] && line[p + k] != NUL;
    }
    assert |cut| == |line| + 1 && cut[p..p + |part|] == part;
    CStringIs(cut, p, part);
  }

  // ---------- The request head ----------

  /** A line that reads as empty: nothing stands before its end, or before its first NUL. */
  predicate Blank(line: string) {
    Text(line) == ""
  }

  ghost predicate HeaderLines(lines: seq<string>) {
    forall l | l in lines :: !Blank(l) && Free(l, LINE_END)
  }

  function Join(lines: seq<string>): string {
    if lines == [] then "" else lines[0] + CRLF + Join(lines[1..])
  }

  /** The header part `s` is header lines up to an empty line, then anything. */
  ghost predicate HeadersEndAs(s: string, lines: seq<string>, empty: string, tail: string) {
    s == Join(lines) + empty + CRLF + tail && HeaderLines(lines) && Blank(empty) && Free(empty, LINE_END)
  }

  ghost predicate HeadersEnd(s: string) {
    exists lines, empty, tail :: HeadersEndAs(s, lines, empty, tail)
  }

  /** The first CR or LF of `s` is not the start of a CRLF, and that is already certain. */
  ghost predicate StrayAt(s: string, i: nat) {
    && i < |s| && Free(s[..i], LINE_END)
    && (s[i] == LF || (s[i] == CR && i + 1 < |s| && s[i + 1] != LF))
  }

  ghost predicate Stray(s: string) {
    exists i: nat :: StrayAt(s, i)
  }

  ghost predicate HeadersStrayAs(s: string, lines: seq<string>, tail: string) {
    s == Join(lines) + tail && HeaderLines(lines) && Stray(tail)
  }

  /** After some header lines, and before any empty line, comes a stray CR or LF. */
  ghost predicate HeadersStray(s: string) {
    exists lines, tail :: HeadersStrayAs(s, lines, tail)
  }

  ghost predicate FirstLineIs(s: string, line: string, tail: string) {
    s == line + CRLF + tail && Free(line, LINE_END)
  }

  ghost predicate Accepted(s: string) {
    exists line, tail :: FirstLineIs(s, line, tail) && IsRequestLine(Text(line)) && HeadersEnd(tail)
  }

  ghost predicate Rejected(s: string) {
    || Stray(s)
    || exists line, tail :: FirstLineIs(s, line, tail) && (!IsRequestLine(Text(line)) || HeadersStray(tail))
  }

  // ---------- What the parser answers, on the unread bytes alone ----------

  function Verdict(s: string, phase: Phase): Code
    decreases |s|
  {
    var i := Break(s, LINE_END);
    if i == |s| then NoRequest
    else if s[i] == LF then BadRequest
    else if i + 1 == |s| then NoRequest
    else if s[i + 1] != LF then BadRequest
    else if phase.RequestLine? then
      if RequestLineParse(Text(s[..i])).ok then Verdict(s[i + 2..], Header) else BadRequest
    else
      if Blank(s[..i]) then GetRequest else Verdict(s[i + 2..], Header)
  }

  lemma {:induction false} LineParseSkipsBytes(buf: string, chk: nat, k: nat)
    requires chk + k <= |buf| && forall i | chk <= i < chk + k :: buf[i] !in LINE_END
    ensures LineParse(buf, chk) == LineParse(buf, chk + k)
    decreases k
  {
    if k > 0 {
      assert buf[chk] !in LINE_END;
      LineParseSkipsBytes(buf, chk + 1, k - 1);
    }
  }

  lemma LineParseSkips(buf: string, chk: nat, k: nat)
    requires chk + k <= |buf| && Free(buf[chk..chk + k], LINE_END)
    ensures LineParse(buf, chk) == LineParse(buf, chk + k)
  {
    FreeBytes(buf, chk, chk + k);
    LineParseSkipsBytes(buf, chk, k);
  }

  /** Where a line begins: everything before is done with, and is no CR. */
  ghost predicate AtLineStart(p: Parser, s: string) {
    && p.chk == p.start <= |p.buf| && p.buf[p.chk..] == s
    && (p.chk > 0 ==> p.buf[p.chk - 1] == NUL)
  }

  lemma LineParseJumps(buf: string, chk: nat, s: string)
    requires chk <= |buf| && buf[chk..] == s
    ensures LineParse(buf, chk) == LineParse(buf, chk + Break(s, LINE_END))
  {
    var i := Break(s, LINE_END);
    assert buf[chk..chk + i] == s[..i];
    LineParseSkips(buf, chk, i);
  }

  lemma LineParseAtLineEnd(buf: string, e: nat)
    requires e + 1 < |buf| && buf[e] == CR && buf[e + 1] == LF
    ensures LineParse(buf, e) == Line(LineOk, e + 2, buf[e := NUL][e + 1 := NUL])
  {
  }

  lemma LineParseOk(buf: string, chk: nat, s: string, i: nat)
    requires chk <= |buf| && buf[chk..] == s && i == Break(s, LINE_END)
    requires i + 1 < |s| && s[i] == CR && s[i + 1] == LF
    ensures LineParse(buf, chk) == Line(LineOk, chk + i + 2, buf[chk + i := NUL][chk + i + 1 := NUL])
  {
    LineParseJumps(buf, chk, s);
    assert buf[chk + i] == s[i] && buf[chk + i + 1] == s[i + 1];
    LineParseAtLineEnd(buf, chk + i);
  }

  lemma LineParseNotOk(buf: string, chk: nat, s: string, i: nat)
    requires chk <= |buf| && buf[chk..] == s && (chk > 0 ==> buf[chk - 1] != CR)
    requires i == Break(s, LINE_END)
    ensures i == |s| ==> LineParse(buf, chk).status.LineOpen?
    ensures i < |s| && s[i] == LF ==> LineParse(buf, chk).status.LineBad?
    ensures i + 1 == |s| && s[i] == CR ==> LineParse(buf, chk).status.LineOpen?
    ensures i + 1 < |s| && s[i] == CR && s[i + 1] != LF ==> LineParse(buf, chk).status.LineBad?
  {
    LineParseJumps(buf, chk, s);
    if i < |s| {
      assert buf[chk + i] == s[i];
      assert i + 1 < |s| ==> buf[chk + i + 1] == s[i + 1];
      assert i > 0 ==> buf[chk + i - 1] == s[i - 1];
    }
  }

  lemma CutBytes(buf: string, chk: nat, s: string, i: nat, cut: string)
    requires chk <= |buf| && buf[chk..] == s && i + 1 < |s|
    requires cut == buf[chk + i := NUL][chk + i + 1 := NUL]
    ensures cut[chk..chk + i] == s[..i] && cut[chk + i] == cut[chk + i + 1] == NUL && cut[chk + i + 2..] == s[i + 2..]
  {
    assert forall k | 0 <= k < |s| :: buf[chk..][k] == buf[chk + k];
  }

  lemma NextLine(buf: string, e: nat, r: Parser, tail: string)
    requires e + 1 < |buf| == |r.buf| && r.chk == r.start == e + 2
    requires r.buf[e..] == buf[e..] && buf[e + 1] == NUL && buf[e + 2..] == tail
    ensures AtLineStart(r, tail)
  {
    assert r.buf[e + 1] == r.buf[e..][1] == buf[e..][1];
    assert r.buf[e + 2..] == r.buf[e..][2..] && buf[e + 2..] == buf[e..][2..];
  }

  /** The first unread line has been cut off: `line` from `start`, then `tail`. */
  ghost predicate LineCut(q: Parser, line: string, tail: string) {
    var e := q.start + |line|;
    && q.chk == e + 2 <= |q.buf| && CString(q.buf, q.start) == Text(line)
    && q.buf[e + 1] == NUL && q.buf[e + 2..] == tail
  }

  lemma CutIsLineCut(p: Parser, q: Parser, s: string, line: string, tail: string)
    requires p.chk == p.start <= |p.buf| && p.buf[p.chk..] == s && |line| + 1 < |s|
    requires s[..|line|] == line && s[|line| + 2..] == tail
    requires var e := p.chk + |line|; q == p.(buf := p.buf[e := NUL][e + 1 := NUL], chk := e + 2)
    ensures LineCut(q, line, tail)
  {
    CutBytes(p.buf, p.chk, s, |line|, q.buf);
    CStringOfLine(q.buf, q.start, line);
  }

  /** The switch over the phases, on a line that was just cut off. */
  lemma HandleCutLine(q: Parser, line: string, tail: string)
    requires LineCut(q, line, tail)
    ensures var r := HandleLine(q);
            && r.0 == (if q.phase.Header? then (if Blank(line) then GetRequest else NoRequest)
                       else if RequestLineParse(Text(line)).ok then NoRequest else BadRequest)
            && (r.0.NoRequest? ==> r.1.phase.Header? && AtLineStart(r.1, tail))
  {
    var e, cut := q.start + |line|, RequestLineParse(Text(line));
    var buf := if q.phase.RequestLine? then Overwrite(q.buf, q.start, cut.line) else q.buf;
    OverwriteTail(q.buf, q.start, cut.line, e);
    var r := Parser(buf, q.chk, q.chk, Header);
    NextLine(q.buf, e, r, tail);
    assert q.phase.Header? || cut.ok ==> HandleLine(q).1 == r;
  }

  predicate HasFirstLine(s: string) {
    var i := Break(s, LINE_END);
    i + 1 < |s| && s[i] == CR && s[i + 1] == LF
  }

  lemma NoLineToParse(p: Parser, s: string)
    requires AtLineStart(p, s) && !HasFirstLine(s)
    ensures ContentParse(p).0 == Verdict(s, p.phase)
  {
    LineParseNotOk(p.buf, p.chk, s, Break(s, LINE_END));
  }

  lemma LineParseFirstLine(p: Parser, s: string, line: string, tail: string)
    requires AtLineStart(p, s) && FirstLineIs(s, line, tail)
    ensures |line| + 1 < |s| && s[..|line|] == line && s[|line| + 2..] == tail
    ensures var e := p.chk + |line|; LineParse(p.buf, p.chk) == Line(LineOk, e + 2, p.buf[e := NUL][e + 1 := NUL])
  {
    FirstLineIsUnique(s, line, tail);
    LineParseOk(p.buf, p.chk, s, |line|);
  }

  /** What the line splitter leaves when the unread bytes begin with a complete line. */
  lemma FirstLineIsCut(p: Parser, s: string, line: string, tail: string) returns (q: Parser)
    requires AtLineStart(p, s) && FirstLineIs(s, line, tail)
    ensures var l := LineParse(p.buf, p.chk); l.status.LineOk? && q == p.(buf := l.buf, chk := l.chk)
    ensures LineCut(q, line, tail) && |tail| < |s|
  {
    LineParseFirstLine(p, s, line, tail);
    var l := LineParse(p.buf, p.chk);
    q := p.(buf := l.buf, chk := l.chk);
    CutIsLineCut(p, q, s, line, tail);
  }

  // ---------- The verdict meets the grammar ----------

  lemma FirstLineIsUnique(s: string, line: string, tail: string)
    requires FirstLineIs(s, line, tail)
    ensures var i := Break(s, LINE_END);
            i == |line| && i + 1 < |s| && s[i] == CR && s[i + 1] == LF && s[..i] == line && s[i + 2..] == tail
  {
    var rest := CRLF + tail;
    assert s == line + rest && rest[0] == CR && rest[1] == LF && rest[2..] == tail;
    BreakAt(s, line, rest, LINE_END);
    assert s[|line|..] == rest && s[|line| + 2..] == rest[2..];
  }

  lemma SplitFirstLine(s: string, i: nat)
    requires i + 1 < |s| && Free(s[..i], LINE_END) && s[i] == CR && s[i + 1] == LF
    ensures FirstLineIs(s, s[..i], s[i + 2..])
  {
    assert s[..i] + CRLF == s[..i + 2];
  }

  lemma StrayIsFirst(s: string)
    ensures Stray(s) <==> StrayAt(s, Break(s, LINE_END))
  {
    if Stray(s) {
      var k: nat :| StrayAt(s, k);
      BreakAt(s, s[..k], s[k..], LINE_END);
    }
  }

  lemma HeadersEndFirst(s: string, ls: seq<string>, e: string, t: string)
    requires HeadersEndAs(s, ls, e, t)
    ensures ls == [] ==> FirstLineIs(s, e, t)
    ensures ls != [] ==> !Blank(ls[0]) && FirstLineIs(s, ls[0], Join(ls[1..]) + e + CRLF + t)
    ensures ls != [] ==> HeadersEndAs(Join(ls[1..]) + e + CRLF + t, ls[1..], e, t)
  {
    if ls == [] {
      assert s == e + CRLF + t;
    } else {
      assert ls[0] in ls && s == ls[0] + CRLF + (Join(ls[1..]) + e + CRLF + t);
    }
  }

  lemma HeadersStrayFirst(s: string, ls: seq<string>, t: string)
    requires HeadersStrayAs(s, ls, t)
    ensures ls == [] ==> Stray(s)
    ensures ls != [] ==> !Blank(ls[0]) && FirstLineIs(s, ls[0], Join(ls[1..]) + t)
    ensures ls != [] ==> HeadersStrayAs(Join(ls[1..]) + t, ls[1..], t)
  {
    if ls == [] {
      assert s == t;
    } else {
      assert ls[0] in ls && s == ls[0] + CRLF + (Join(ls[1..]) + t);
    }
  }

  lemma JoinMore(line: string, ls: seq<string>)
    ensures Join([line] + ls) == line + CRLF + Join(ls)
  {
    assert ([line] + ls)[1..] == ls;
  }

  lemma HeadersEndStep(s: string, line: string, tail: string)
    requires FirstLineIs(s, line, tail)
    ensures HeadersEnd(s) <==> Blank(line) || HeadersEnd(tail)
  {
    if Blank(line) {
      assert s == Join([]) + line + CRLF + tail;
      assert HeadersEndAs(s, [], line, tail);
    } else if HeadersEnd(tail) {
      var ls, e, t :| HeadersEndAs(tail, ls, e, t);
      JoinMore(line, ls);
      assert s == Join([line] + ls) + e + CRLF + t;
      assert HeadersEndAs(s, [line] + ls, e, t);
    }
    if HeadersEnd(s) {
      HeadersEndBack(s, line, tail);
    }
  }

  lemma HeadersEndBack(s: string, line: string, tail: string)
    requires FirstLineIs(s, line, tail) && HeadersEnd(s)
    ensures Blank(line) || HeadersEnd(tail)
  {
    FirstLineIsUnique(s, line, tail);
    var ls, e, t :| HeadersEndAs(s, ls, e, t);
    HeadersEndFirst(s, ls, e, t);
    if ls == [] {
      FirstLineIsUnique(s, e, t);
    } else {
      FirstLineIsUnique(s, ls[0], Join(ls[1..]) + e + CRLF + t);
    }
  }

  lemma HeadersStrayStep(s: string, line: string, tail: string)
    requires FirstLineIs(s, line, tail)
    ensures HeadersStray(s) <==> !Blank(line) && HeadersStray(tail)
  {
    FirstLineIsUnique(s, line, tail);
    StrayIsFirst(s);
    if !Blank(line) && HeadersStray(tail) {
      var ls, t :| HeadersStrayAs(tail, ls, t);
      JoinMore(line, ls);
      assert s == Join([line] + ls) + t;
      assert HeadersStrayAs(s, [line] + ls, t);
    }
    if HeadersStray(s) {
      var ls, t :| HeadersStrayAs(s, ls, t);
      HeadersStrayFirst(s, ls, t);
      if ls != [] {
        FirstLineIsUnique(s, ls[0], Join(ls[1..]) + t);
      }
    }
  }

  lemma NoFirstLine(s: string, line: string, tail: string)
    requires !HasFirstLine(s)
    ensures !FirstLineIs(s, line, tail)
  {
    if FirstLineIs(s, line, tail) {
      FirstLineIsUnique(s, line, tail);
    }
  }

  lemma NoLineNoEnd(s: string)
    requires !HasFirstLine(s)
    ensures !HeadersEnd(s)
  {
    if HeadersEnd(s) {
      var ls, e, t :| HeadersEndAs(s, ls, e, t);
      HeadersEndFirst(s, ls, e, t);
      NoFirstLine(s, if ls == [] then e else ls[0], if ls == [] then t else Join(ls[1..]) + e + CRLF + t);
    }
  }

  lemma NoLineStray(s: string)
    requires !HasFirstLine(s)
    ensures HeadersStray(s) <==> Stray(s)
  {
    if Stray(s) {
      assert s == Join([]) + s;
      assert HeadersStrayAs(s, [], s);
    }
    if HeadersStray(s) {
      var ls, t :| HeadersStrayAs(s, ls, t);
      HeadersStrayFirst(s, ls, t);
      if ls != [] {
        NoFirstLine(s, ls[0], Join(ls[1..]) + t);
      }
    }
  }

  /** Without a complete first line the verdict is BAD_REQUEST exactly on a stray CR or LF. */
  lemma NoLineVerdict(s: string, phase: Phase)
    requires !HasFirstLine(s)
    ensures !Verdict(s, phase).GetRequest? && (Verdict(s, phase).BadRequest? <==> Stray(s))
  {
    var i := Break(s, LINE_END);
    StrayIsFirst(s);
    assert forall k | 0 <= k < i :: s[..i][k] == s[k];
  }

  lemma FirstLineVerdict(s: string, line: string, tail: string, phase: Phase)
    requires FirstLineIs(s, line, tail)
    ensures Verdict(s, phase) ==
              if phase.RequestLine? then (if RequestLineParse(Text(line)).ok then Verdict(tail, Header) else BadRequest)
              else if Blank(line) then GetRequest else Verdict(tail, Header)
  {
    FirstLineIsUnique(s, line, tail);
  }

  lemma FirstLineExists(s: string) returns (line: string, tail: string)
    requires HasFirstLine(s)
    ensures FirstLineIs(s, line, tail)
  {
    var i := Break(s, LINE_END);
    assert forall k | 0 <= k < i :: s[..i][k] == s[k];
    line, tail := s[..i], s[i + 2..];
    SplitFirstLine(s, i);
  }

  lemma {:induction false} HeaderVerdict(s: string)
    ensures Verdict(s, Header).GetRequest? <==> HeadersEnd(s)
    ensures Verdict(s, Header).BadRequest? <==> HeadersStray(s)
    decreases |s|
  {
    if HasFirstLine(s) {
      var line, tail := FirstLineExists(s);
      FirstLineVerdict(s, line, tail, Header);
      HeadersEndStep(s, line, tail);
      HeadersStrayStep(s, line, tail);
      HeaderVerdict(tail);
    } else {
      NoLineVerdict(s, Header);
      NoLineNoEnd(s);
      NoLineStray(s);
    }
  }

  lemma AcceptedByFirstLine(s: string, line: string, tail: string)
    requires FirstLineIs(s, line, tail)
    ensures Accepted(s) <==> IsRequestLine(Text(line)) && HeadersEnd(tail)
    ensures Rejected(s) <==> !IsRequestLine(Text(line)) || HeadersStray(tail)
  {
    FirstLineIsUnique(s, line, tail);
    StrayIsFirst(s);
    forall l, t | FirstLineIs(s, l, t) ensures l == line && t == tail {
      FirstLineIsUnique(s, l, t);
    }
  }

  lemma StreamVerdict(s: string)
    ensures Verdict(s, RequestLine).GetRequest? <==> Accepted(s)
    ensures Verdict(s, RequestLine).BadRequest? <==> Rejected(s)
  {
    if HasFirstLine(s) {
      var line, tail := FirstLineExists(s);
      FirstLineVerdict(s, line, tail, RequestLine);
      AcceptedByFirstLine(s, line, tail);
      RequestLineMeetsGrammar(Text(line));
      HeaderVerdict(tail);
    } else {
      NoLineVerdict(s, RequestLine);
      forall line, tail ensures !FirstLineIs(s, line, tail) {
        NoFirstLine(s, line, tail);
      }
    }
  }

  /** What the parser answers on a buffer is decided by the unread bytes and the phase. */
  lemma {:induction false} ParserAnswersVerdict(p: Parser, s: string)
    requires AtLineStart(p, s)
    ensures ContentParse(p).0 == Verdict(s, p.phase)
    decreases |s|
  {
    if !HasFirstLine(s) {
      NoLineToParse(p, s);
    } else {
      var line, tail := FirstLineExists(s);
      FirstLineVerdict(s, line, tail, p.phase);
      var q := FirstLineIsCut(p, s, line, tail);
      HandleCutLine(q, line, tail);
      var r := HandleLine(q);
      if r.0.NoRequest? {
        ParserAnswersVerdict(r.1, tail);
      }
    }
  }

  /** The parser answers GET_REQUEST on the streams of the grammar, BAD_REQUEST on those that cannot
      be completed, and NO_REQUEST on the rest. */
  lemma ParserDecidesGrammar(s: string)
    ensures ContentParse(FRESH.Receive(s)).0.GetRequest? <==> Accepted(s)
    ensures ContentParse(FRESH.Receive(s)).0.BadRequest? <==> Rejected(s)
  {
    var p := FRESH.Receive(s);
    assert p.buf == s && p.buf[0..] == s;
    ParserAnswersVerdict(p, s);
    StreamVerdict(s);
  }

  /** The same answer however the stream is cut into chunks. */
  lemma FeedDecidesGrammar(chunks: seq<string>)
    requires |chunks| > 0
    ensures Feed(FRESH, chunks).code.GetRequest? <==> Accepted(Concat(chunks))
    ensures Feed(FRESH, chunks).code.BadRequest? <==> Rejected(Concat(chunks))
  {
    ChunksDoNotMatter(FRESH, chunks);
    ParserDecidesGrammar(Concat(chunks));
  }
}
