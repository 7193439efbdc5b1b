/** The request reader as the server runs it: a fixed buffer that chunks are received
    into and that the parser cuts up in place. */
module RequestReader {
  import opened CStrings
  import opened RequestParser

  const BUFFER_SIZE := 4096

  class Reader {
    const buf: array<char>
    var chkIndex: nat
    var readIndex: nat
    var startLine: nat
    var chkState: Phase

    ghost predicate Valid()
      reads this
    {
      startLine <= chkIndex <= readIndex <= buf.Length
    }

    /** The received bytes with the NULs written so far, and where the parser stands. */
    ghost function View(): (p: Parser)
      requires Valid()
      reads this, buf
      ensures p.Ordered()
    {
      Parser(buf[..readIndex], chkIndex, startLine, chkState)
    }

    constructor (size: nat)
      ensures Valid() && fresh(buf) && View() == FRESH && buf.Length == size
    {
      buf := new char[size](_ => NUL);
      chkIndex, readIndex, startLine, chkState := 0, 0, 0, RequestLine;
    }

    method Put(at: nat)
      requires Valid() && at < readIndex
      modifies buf
      ensures buf[..readIndex] == old(buf[..readIndex])[at := NUL] && buf[readIndex..] == old(buf[readIndex..])
    {
      buf[at] := NUL;
    }

    /** line_parse */
    method ParseLine() returns (status: LineStatus)
      requires Valid()
      modifies this`chkIndex, buf
      ensures Valid()
      ensures Line(status, chkIndex, buf[..readIndex]) == old(LineParse(buf[..readIndex], chkIndex))
      ensures buf[readIndex..] == old(buf[readIndex..])
    {
      ghost var was := buf[..readIndex];
      while chkIndex < readIndex
        invariant Valid() && buf[..readIndex] == was && buf[readIndex..] == old(buf[readIndex..])
        invariant LineParse(was, chkIndex) == LineParse(was, old(chkIndex))
      {
        var tmp := buf[chkIndex];
        assert was[chkIndex] == tmp;
        if tmp == CR {
          if chkIndex + 1 == readIndex {
            return LineOpen;
          } else if buf[chkIndex + 1] == LF {
            Put(chkIndex);
            chkIndex := chkIndex + 1;
            Put(chkIndex);
            chkIndex := chkIndex + 1;
            return LineOk;
          }
          return LineBad;
        } else if tmp == LF {
          if chkIndex > 1 && buf[chkIndex - 1] == CR {
            Put(chkIndex - 1);
            Put(chkIndex);
            chkIndex := chkIndex + 1;
            return LineOk;
          }
          return LineBad;
        }
        chkIndex := chkIndex + 1;
      }
      return LineOpen;
    }

    /** Puts a NUL at offset `k` of the line at `tmp`, which reads `line` by now. */
    method PutNul(tmp: nat, k: nat, ghost was: string, ghost line: string)
      requires Valid() && |was| == readIndex && tmp + |line| <= readIndex && k < |line|
      requires buf[..readIndex] == Overwrite(was, tmp, line)
      modifies buf
      ensures buf[..readIndex] == Overwrite(was, tmp, line[k := NUL]) && buf[readIndex..] == old(buf[readIndex..])
    {
      OverwriteOne(was, tmp, line, k, NUL);
      Put(tmp + k);
    }

    /** request_line_parse: cuts the separators of the line at `tmp`, and moves on to the headers. */
    method ParseRequestLine(tmp: nat) returns (ok: bool)
      requires Valid() && tmp <= readIndex
      modifies this`chkState, buf
      ensures var cut := RequestLineParse(old(CString(buf[..readIndex], tmp)));
              && ok == cut.ok
              && buf[..readIndex] == Overwrite(old(buf[..readIndex]), tmp, cut.line)
              && buf[readIndex..] == old(buf[readIndex..])
      ensures chkState == if ok then Header else old(chkState)
    {
      ghost var was := buf[..readIndex];
      var line := CString(buf[..readIndex], tmp);
      OverwriteSame(was, tmp, line);
      var s := SplitWord(line);
      if s.NoBlank? {
        return false;
      }
      PutNul(tmp, |s.word|, was, line);
      if !EqualIgnoringCase(s.word, "GET") {
        return false;
      }
      ok := ParseTarget(tmp, was, line[|s.word| := NUL], s.rest);
    }

    /** The rest of request_line_parse: `line` is what stands at `tmp` by now. */
    method ParseTarget(tmp: nat, ghost was: string, line: string, more: string) returns (ok: bool)
      requires Valid() && |was| == readIndex && tmp + |line| <= readIndex && |more| < |line|
      requires buf[..readIndex] == Overwrite(was, tmp, line)
      modifies this`chkState, buf
      ensures var cut := TargetParse(line, more);
              && ok == cut.ok
              && buf[..readIndex] == Overwrite(was, tmp, cut.line)
              && buf[readIndex..] == old(buf[readIndex..])
      ensures chkState == if ok then Header else old(chkState)
    {
      var s := SplitWord(more);
      if s.NoBlank? {
        return false;
      }
      PutNul(tmp, |line| - |more| + |s.word|, was, line);
      if !EqualIgnoringCase(s.rest, "HTTP/1.1") || !TargetOk(s.word) {
        return false;
      }
      chkState := Header;
      return true;
    }

    /** The body of content_parse's loop: the complete line at `tmp`. */
    method ParseOneLine(tmp: nat) returns (code: Code)
      requires Valid() && tmp <= chkIndex == startLine
      modifies this`chkState, buf
      ensures Valid() && (code, View()) == old(HandleLine(View().(start := tmp)))
      ensures buf[readIndex..] == old(buf[readIndex..])
    {
      ghost var p := View().(start := tmp);
      if chkState == RequestLine {
        ghost var cut := RequestLineParse(CString(p.buf, tmp));
        var ok := ParseRequestLine(tmp);
        code := if ok then NoRequest else BadRequest;
        ghost var phase := if ok then Header else RequestLine;
        assert View() == Parser(Overwrite(p.buf, tmp, cut.line), chkIndex, chkIndex, phase);
      } else {
        var line := CString(buf[..readIndex], tmp);
        code := if line == "" then GetRequest else NoRequest;
      }
    }

    /** content_parse */
    method ParseContent() returns (code: Code)
      requires Valid()
      modifies this`chkIndex, this`startLine, this`chkState, buf
      ensures Valid() && (code, View()) == old(ContentParse(View()))
      ensures buf[readIndex..] == old(buf[readIndex..])
    {
      ghost var p := View();
      var status := ParseLine();
      while status == LineOk
        invariant Valid() && startLine <= old(readIndex) == readIndex
        invariant buf[readIndex..] == old(buf[readIndex..])
        invariant p.Ordered() && ContentParse(p) == old(ContentParse(View()))
        invariant Line(status, chkIndex, buf[..readIndex]) == LineParse(p.buf, p.chk)
        invariant startLine == p.start && chkState == p.phase && |p.buf| == readIndex
        decreases readIndex - p.chk
      {
        var tmp := startLine;
        startLine := chkIndex;
        code := ParseOneLine(tmp);
        if code != NoRequest {
          return;
        }
        p := View();
        status := ParseLine();
      }
      return if status == LineOpen then NoRequest else BadRequest;
    }

    /** One round of the receive loop: recv of `chunk` into the free part, then content_parse. */
    method Receive(chunk: string) returns (code: Code)
      requires Valid() && 0 < |chunk| <= buf.Length - readIndex
      modifies this, buf
      ensures Valid() && (code, View()) == old(ContentParse(View().Receive(chunk)))
      ensures readIndex == old(readIndex) + |chunk|
    {
      forall i | 0 <= i < |chunk| {
        buf[readIndex + i] := chunk[i];
      }
      ghost var p := View().Receive(chunk);
      readIndex := readIndex + |chunk|;
      assert buf[..readIndex] == old(buf[..readIndex]) + chunk;
      assert View() == old(View()).Receive(chunk);
      code := ParseContent();
    }
  }

  // ---------- The receive loop ----------

  /** As much of `s` as there is room for. */
  function Prefix(s: string, room: nat): string {
    if |s| <= room then s else s[..room]
  }

  /** Started in `p`, the parser answers `code` on the whole of `stream`, and ends in `q`. */
  ghost predicate Answers(p: Parser, stream: string, code: Code, q: Parser) {
    p.Ordered() && (code, q) == ContentParse(p.Receive(stream))
  }

  lemma Resumes(p: Parser, got: string, q: Parser, more: string, code: Code, r: Parser)
    requires q.Ordered() && Answers(p, got, NoRequest, q) && (code, r) == ContentParse(q.Receive(more))
    ensures Answers(p, got + more, code, r)
  {
    ContentParseExtend(p.Receive(got), more);
    ReceiveTwice(p, got, more);
  }

  lemma VerdictStands(p: Parser, got: string, more: string, code: Code, q: Parser)
    requires Answers(p, got, code, q) && code != NoRequest
    ensures Answers(p, got + more, code, q.Receive(more))
  {
    ContentParseExtend(p.Receive(got), more);
    ReceiveTwice(p, got, more);
  }

  /** What was received is a part of what could be seen, and an answer is not taken back. */
  lemma AnswerOnSeen(p: Parser, stream: string, got: string, room: nat, code: Code, q: Parser)
    requires Answers(p, got, code, q) && |got| <= room && got == Prefix(stream, |got|)
    requires code != NoRequest || |got| == room || got == stream
    ensures var seen := Prefix(stream, room);
            |got| <= |seen| && Answers(p, seen, code, q.Receive(seen[|got|..])) && (code == NoRequest ==> got == seen)
  {
    var seen := Prefix(stream, room);
    assert seen == got + seen[|got|..];
    if code == NoRequest {
      assert q.Receive("") == q;
    } else {
      VerdictStands(p, got, seen[|got|..], code, q);
    }
  }

  /** The next chunk, as far as there is room for it. */
  lemma NextSeen(stream: string, got: string, chunks: seq<string>, i: nat, size: nat)
    requires i < |chunks| && |got| < size && stream == got + Concat(chunks[i..])
    ensures var now := got + Prefix(chunks[i], size - |got|);
            && |now| <= size && now == Prefix(stream, |now|)
            && (|now| < size ==> stream == now + Concat(chunks[i + 1..]))
  {
    assert chunks[i..][1..] == chunks[i + 1..];
    var c, rest := chunks[i], Concat(chunks[i + 1..]);
    assert stream == got + c + rest;
  }

  /** One round of the loop. */
  method ReceiveNext(reader: Reader, chunk: string, ghost p: Parser, ghost got: string)
    returns (code: Code, ghost now: string)
    requires reader.Valid() && reader.readIndex < reader.buf.Length && chunk != ""
    requires Answers(p, got, NoRequest, reader.View())
    modifies reader, reader.buf
    ensures reader.Valid() && now == got + Prefix(chunk, reader.buf.Length - old(reader.readIndex))
    ensures reader.readIndex == old(reader.readIndex) + |now| - |got| && Answers(p, now, code, reader.View())
  {
    ghost var q := reader.View();
    var taken := Prefix(chunk, reader.buf.Length - reader.readIndex);
    code := reader.Receive(taken);
    now := got + taken;
    Resumes(p, got, q, taken, code, reader.View());
  }

  /** The server's receive loop over the chunks that arrive: it answers as the parser does on the part
      of the stream that fits the buffer, however the stream is cut. When the buffer is full recv
      returns 0, which ends the loop without a verdict. */
  method ReceiveAll(reader: Reader, chunks: seq<string>) returns (code: Code)
    requires reader.Valid() && reader.readIndex == 0
    requires ContentParse(reader.View()) == (NoRequest, reader.View())
    requires forall i | 0 <= i < |chunks| :: chunks[i] != ""
    modifies reader, reader.buf
    ensures reader.Valid()
    ensures var seen := Prefix(Concat(chunks), reader.buf.Length);
            && reader.readIndex <= |seen| && (code == NoRequest ==> reader.readIndex == |seen|)
            && Answers(old(reader.View()), seen, code, reader.View().Receive(seen[reader.readIndex..]))
  {
    ghost var stream, p, got := Concat(chunks), reader.View(), "";
    code := NoRequest;
    var i := 0;
    assert chunks[0..] == chunks && p.Receive("") == p;
    while i < |chunks| && code == NoRequest && reader.readIndex < reader.buf.Length
      invariant 0 <= i <= |chunks| && reader.Valid() && |got| == reader.readIndex
      invariant Answers(p, got, code, reader.View())
      invariant |got| <= reader.buf.Length && got == Prefix(stream, |got|)
      invariant |got| < reader.buf.Length ==> stream == got + Concat(chunks[i..])
      decreases |chunks| - i
    {
      NextSeen(stream, got, chunks, i, reader.buf.Length);
      code, got := ReceiveNext(reader, chunks[i], p, got);
      i := i + 1;
    }
    AnswerOnSeen(p, stream, got, reader.buf.Length, code, reader.View());
  }

  method Serve(chunks: seq<string>) returns (code: Code, reader: Reader)
    requires forall i | 0 <= i < |chunks| :: chunks[i] != ""
    ensures reader.Valid() && fresh(reader) && fresh(reader.buf)
    ensures code == ContentParse(FRESH.Receive(Prefix(Concat(chunks), 4096))).0
  {
    reader := new Reader(BUFFER_SIZE);
    code := ReceiveAll(reader, chunks);
  }
}
