/** The header fields of an HTTP connection: how they are printed, and how one line of them is read. */
module HttpHeaders {
  import opened CStrings
  import opened RequestParser
  import opened RequestGrammar

  const WRITE_BUF_SIZE := 1024
  const INT_MAX := 0x7FFF_FFFF
  const LONG_MAX := 0x7FFF_FFFF_FFFF_FFFF

  // ---------- Decimal numbers ----------

  predicate IsDigit(c: char) {
    '0' <= c <= '9'
  }

  predicate IsSpace(c: char) {
    c == ' ' || 9 as char <= c <= 13 as char
  }

  predicate AllDigits(s: string) {
    forall i | 0 <= i < |s| :: IsDigit(s[i])
  }

  function Digits(n: nat): (s: string)
    ensures s != "" && AllDigits(s)
  {
    var last := [('0' as int + n % 10) as char];
    if n < 10 then last else Digits(n / 10) + last
  }

  /** printf's %d */
  function Decimal(n: int): string {
    if n < 0 then "-" + Digits(-n) else Digits(n)
  }

  function Value(digits: string): int {
    if digits == "" then 0
    else 10 * Value(digits[..|digits| - 1]) + (digits[|digits| - 1] as int - '0' as int)
  }

  function SkipSpace(s: string): string {
    if s != "" && IsSpace(s[0]) then SkipSpace(s[1..]) else s
  }

  function LeadingDigits(s: string): string {
    if s != "" && IsDigit(s[0]) then [s[0]] + LeadingDigits(s[1..]) else ""
  }

  function Clamp(n: int): int {
    if n > LONG_MAX then LONG_MAX else if n < -LONG_MAX - 1 then -LONG_MAX - 1 else n
  }

  /** atol: white space, an optional sign, digits; saturating as strtol does. */
  function Atol(s: string): int {
    var t := SkipSpace(s);
    if t == "" then 0
    else if t[0] == '-' then Clamp(-Value(LeadingDigits(t[1..])))
    else Clamp(Value(LeadingDigits(if t[0] == '+' then t[1..] else t)))
  }

  /** The conversion of a long to the int field it is stored in. */
  function ToInt(n: int): int {
    (n + INT_MAX + 1) % (2 * INT_MAX + 2) - INT_MAX - 1
  }

  lemma {:induction false} ValueOfDigits(n: nat)
    ensures Value(Digits(n)) == n
  {
    var s := Digits(n);
    assert s[..|s| - 1] == if n < 10 then "" else Digits(n / 10);
    if n >= 10 {
      ValueOfDigits(n / 10);
    }
  }

  lemma {:induction false} DigitsLead(s: string)
    requires AllDigits(s)
    ensures LeadingDigits(s) == s
  {
    if s != "" {
      DigitsLead(s[1..]);
    }
  }

  lemma AtolOfDigits(d: string)
    requires d != "" && AllDigits(d) && Value(d) <= INT_MAX + 1
    ensures Atol(d) == Clamp(Value(d)) && Atol("-" + d) == Clamp(-Value(d))
  {
    assert IsDigit(d[0]) && SkipSpace(d) == d;
    var m := "-" + d;
    assert SkipSpace(m) == m && m[1..] == d;
    DigitsLead(d);
  }

  lemma ToIntOfInt(n: int)
    requires -INT_MAX - 1 <= n <= INT_MAX
    ensures ToInt(n) == n
  {
    var m := n + INT_MAX + 1;
    assert 0 <= m < 2 * INT_MAX + 2;
  }

  /** Reading back a printed number: every int survives %d, atol and the store into an int. */
  lemma DecimalRoundTrip(n: int)
    requires -INT_MAX - 1 <= n <= INT_MAX
    ensures ToInt(Atol(Decimal(n))) == n
  {
    var m: nat := if n < 0 then -n else n;
    ValueOfDigits(m);
    AtolOfDigits(Digits(m));
    ToIntOfInt(n);
  }

  function Power10(k: nat): nat {
    if k == 0 then 1 else 10 * Power10(k - 1)
  }

  /** Value is positional: each digit counts ten times the one behind it. */
  lemma {:induction false} ValueOfConcat(a: string, b: string)
    ensures Value(a + b) == Value(a) * Power10(|b|) + Value(b)
    decreases |b|
  {
    if b == "" {
      assert a + b == a;
    } else {
      var n := |b| - 1;
      assert (a + b)[..|a + b| - 1] == a + b[..n];
      ValueOfConcat(a, b[..n]);
    }
  }

  lemma ValueOfDigit(c: char)
    requires IsDigit(c)
    ensures Value([c]) == c as int - '0' as int
  {
    assert [c][..0] == "";
  }

  /** A printed number begins with 0 only when it is 0. */
  lemma {:induction false} NoLeadingZero(n: nat)
    ensures Digits(n)[0] == '0' <==> n == 0
  {
    if n >= 10 {
      NoLeadingZero(n / 10);
    }
  }

  /** A text that reads as a number: white space, a sign or none, as many digits as there are. */
  ghost predicate NumberParts(s: string, spaces: string, sign: string, digits: string, rest: string) {
    && s == spaces + sign + digits + rest
    && (forall i | 0 <= i < |spaces| :: spaces[i] in {' ', '\t', '\n', '\r', 11 as char, 12 as char})
    && (sign == "" || sign == "+" || sign == "-")
    && AllDigits(digits) && (rest != "" ==> !IsDigit(rest[0]))
    && (sign == "" && digits == "" && rest != "" ==>
          rest[0] !in {' ', '\t', '\n', '\r', 11 as char, 12 as char} && rest[0] != '+' && rest[0] != '-')
  }

  lemma {:induction false} SpaceIsSkipped(spaces: string, s: string)
    requires (forall i | 0 <= i < |spaces| :: IsSpace(spaces[i])) && (s != "" ==> !IsSpace(s[0]))
    ensures SkipSpace(spaces + s) == s
  {
    if spaces == "" {
      assert spaces + s == s;
    } else {
      assert (spaces + s)[1..] == spaces[1..] + s;
      SpaceIsSkipped(spaces[1..], s);
    }
  }

  lemma {:induction false} DigitsAreLed(digits: string, rest: string)
    requires AllDigits(digits) && (rest != "" ==> !IsDigit(rest[0]))
    ensures LeadingDigits(digits + rest) == digits
  {
    if digits == "" {
      assert digits + rest == rest;
    } else {
      assert (digits + rest)[1..] == digits[1..] + rest;
      DigitsAreLed(digits[1..], rest);
    }
  }

  /** atol on every text: the value of the digits with their sign, 0 without digits, within long. */
  lemma AtolReads(s: string, spaces: string, sign: string, digits: string, rest: string)
    requires NumberParts(s, spaces, sign, digits, rest)
    ensures var n, most := if sign == "-" then -Value(digits) else Value(digits), 0x7FFF_FFFF_FFFF_FFFF;
            Atol(s) == if n > most then most else if n < -most - 1 then -most - 1 else n
  {
    var t := sign + digits + rest;
    assert s == spaces + t;
    SpaceIsSkipped(spaces, t);
    SignedIsRead(s, t, sign, digits, rest);
  }

  lemma SignedIsRead(s: string, t: string, sign: string, digits: string, rest: string)
    requires SkipSpace(s) == t == sign + digits + rest && (sign == "" || sign == "+" || sign == "-")
    requires AllDigits(digits) && (rest != "" ==> !IsDigit(rest[0]))
    requires sign == "" && digits == "" && rest != "" ==> rest[0] != '+' && rest[0] != '-'
    ensures Atol(s) == Clamp(if sign == "-" then -Value(digits) else Value(digits))
  {
    DigitsAreLed(digits, rest);
    assert Value("") == 0;
    if sign == "" {
      assert t == digits + rest;
      assert t != "" ==> t[0] == if digits != "" then digits[0] else rest[0];
    } else {
      assert t[0] == sign[0] && t[1..] == digits + rest;
    }
  }

  /** ... and stored into an int it is what it was, up to multiples of 2 to the 32. */
  lemma ToIntWraps(n: int)
    ensures -INT_MAX - 1 <= ToInt(n) <= INT_MAX && (n - ToInt(n)) % 0x1_0000_0000 == 0
  {
    var m := n + INT_MAX + 1;
    assert m == m / 0x1_0000_0000 * 0x1_0000_0000 + m % 0x1_0000_0000;
    assert n - ToInt(n) == m / 0x1_0000_0000 * 0x1_0000_0000;
  }

  // ---------- The header parser ----------

  /** What parse_headers remembers of the headers read so far. */
  datatype Head = Head(contentLength: int, linger: bool, host: string)

  const NO_HEAD := Head(0, false, "")

  function HeaderValue(line: string, name: string): string
    requires |name| <= |line|
  {
    var v := line[|name|..];
    v[Span(v, BLANK)..]
  }

  /** parse_headers on a nonempty line */
  function ParseHeader(line: string, h: Head): Head {
    if StartsIgnoringCase(line, "Connection:") then
      if EqualIgnoringCase(HeaderValue(line, "Connection:"), "keep-alive") then h.(linger := true) else h
    else if StartsIgnoringCase(line, "Content-Length:") then
      h.(contentLength := ToInt(Atol(HeaderValue(line, "Content-Length:"))))
    else if StartsIgnoringCase(line, "Host:") then
      h.(host := HeaderValue(line, "Host:"))
    else h
  }

  /** `line` is the field, in any case, blanks or none, and a value that does not begin with a blank. */
  ghost predicate FieldParts(line: string, field: string, name: string, gap: string, value: string) {
    && line == name + gap + value && SameButForCase(name, field)
    && (forall i | 0 <= i < |gap| :: gap[i] == ' ' || gap[i] == '\t')
    && (value != "" ==> value[0] != ' ' && value[0] != '\t')
  }

  ghost predicate FieldIs(line: string, field: string, value: string) {
    exists name, gap :: FieldParts(line, field, name, gap, value)
  }

  lemma FieldIsRead(line: string, field: string, value: string)
    ensures FieldIs(line, field, value) <==> StartsIgnoringCase(line, field) && HeaderValue(line, field) == value
  {
    if FieldIs(line, field, value) {
      var name, gap :| FieldParts(line, field, name, gap, value);
      assert line[..|field|] == name && line[|field|..] == gap + value;
      IgnoringCaseIs(name, field);
      SpanAt(gap + value, gap, value, BLANK);
    }
    if StartsIgnoringCase(line, field) && HeaderValue(line, field) == value {
      var name, v := line[..|field|], line[|field|..];
      IgnoringCaseIs(name, field);
      var gap := v[..Span(v, BLANK)];
      assert line == name + gap + value;
      assert FieldParts(line, field, name, gap, value);
    }
  }

  /** No line has two of the fields. */
  lemma FieldsExclude(line: string)
    ensures !(StartsIgnoringCase(line, "Connection:") && StartsIgnoringCase(line, "Content-Length:"))
    ensures !(StartsIgnoringCase(line, "Connection:") && StartsIgnoringCase(line, "Host:"))
    ensures !(StartsIgnoringCase(line, "Content-Length:") && StartsIgnoringCase(line, "Host:"))
  {
    if |line| >= 5 {
      assert line[..5][0] == line[0];
    }
    if |line| >= 11 {
      assert line[..11][0] == line[0] && line[..11][3] == line[3];
    }
    if |line| >= 15 {
      assert line[..15][0] == line[0] && line[..15][3] == line[3];
    }
  }

  /** What a header line changes: one of the three fields sets exactly its own part, and any other line
      changes nothing. */
  lemma HeaderMeans(line: string, h: Head, value: string)
    ensures FieldIs(line, "Host:", value) ==> ParseHeader(line, h) == Head(h.contentLength, h.linger, value)
    ensures FieldIs(line, "Content-Length:", value) ==>
              ParseHeader(line, h) == Head(ToInt(Atol(value)), h.linger, h.host)
    ensures FieldIs(line, "Connection:", value) ==>
              ParseHeader(line, h) == Head(h.contentLength, h.linger || SameButForCase(value, "keep-alive"), h.host)
  {
    FieldIsRead(line, "Host:", value);
    FieldIsRead(line, "Content-Length:", value);
    FieldIsRead(line, "Connection:", value);
    FieldsExclude(line);
    IgnoringCaseIs(value, "keep-alive");
  }

  ghost predicate HasField(line: string, field: string) {
    exists value :: FieldIs(line, field, value)
  }

  lemma OtherLinesMeanNothing(line: string, h: Head)
    requires !HasField(line, "Host:") && !HasField(line, "Content-Length:") && !HasField(line, "Connection:")
    ensures ParseHeader(line, h) == h
  {
    if |line| >= 5 {
      FieldIsRead(line, "Host:", HeaderValue(line, "Host:"));
    }
    if |line| >= 11 {
      FieldIsRead(line, "Connection:", HeaderValue(line, "Connection:"));
    }
    if |line| >= 15 {
      FieldIsRead(line, "Content-Length:", HeaderValue(line, "Content-Length:"));
    }
  }

  // ---------- All the header lines of a request ----------

  function HeadOf(lines: seq<string>, h: Head): Head
    decreases |lines|
  {
    if lines == [] then h else HeadOf(lines[1..], ParseHeader(Text(lines[0]), h))
  }

  /** Line `i` is the last with this field. */
  ghost predicate LastWith(lines: seq<string>, field: string, i: nat) {
    && i < |lines| && HasField(Text(lines[i]), field)
    && forall j | i < j < |lines| :: !HasField(Text(lines[j]), field)
  }

  ghost predicate NoneWith(lines: seq<string>, field: string) {
    forall j | 0 <= j < |lines| :: !HasField(Text(lines[j]), field)
  }

  ghost predicate KeepsAlive(line: string) {
    exists v :: FieldIs(line, "Connection:", v) && SameButForCase(v, "keep-alive")
  }

  lemma OneLine(line: string, h: Head)
    ensures var r := ParseHeader(line, h);
            && (!HasField(line, "Host:") ==> r.host == h.host)
            && (!HasField(line, "Content-Length:") ==> r.contentLength == h.contentLength)
            && (r.linger <==> h.linger || KeepsAlive(line))
  {
    if v :| FieldIs(line, "Connection:", v) {
      HeaderMeans(line, h, v);
      forall w | FieldIs(line, "Connection:", w) ensures w == v {
        FieldIsRead(line, "Connection:", v);
        FieldIsRead(line, "Connection:", w);
      }
    } else if v :| FieldIs(line, "Content-Length:", v) {
      HeaderMeans(line, h, v);
      assert HasField(line, "Content-Length:");
    } else if v :| FieldIs(line, "Host:", v) {
      HeaderMeans(line, h, v);
      assert HasField(line, "Host:");
    } else {
      OtherLinesMeanNothing(line, h);
    }
  }

  /** The last Content-Length counts. */
  lemma {:induction false} ContentLengthOf(lines: seq<string>, h: Head, i: nat, value: string)
    ensures NoneWith(lines, "Content-Length:") ==> HeadOf(lines, h).contentLength == h.contentLength
    ensures LastWith(lines, "Content-Length:", i) && FieldIs(Text(lines[i]), "Content-Length:", value) ==>
              HeadOf(lines, h).contentLength == ToInt(Atol(value))
    decreases |lines|
  {
    if lines != [] {
      var rest, k := lines[1..], if i > 0 then i - 1 else 0;
      OneLine(Text(lines[0]), h);
      HeaderMeans(Text(lines[0]), h, value);
      ContentLengthOf(rest, ParseHeader(Text(lines[0]), h), k, value);
      assert LastWith(lines, "Content-Length:", 0) ==> NoneWith(rest, "Content-Length:");
      assert i > 0 && LastWith(lines, "Content-Length:", i) ==> LastWith(rest, "Content-Length:", k);
    }
  }

  /** The last Host counts. */
  lemma {:induction false} HostOf(lines: seq<string>, h: Head, i: nat, value: string)
    ensures NoneWith(lines, "Host:") ==> HeadOf(lines, h).host == h.host
    ensures LastWith(lines, "Host:", i) && FieldIs(Text(lines[i]), "Host:", value) ==> HeadOf(lines, h).host == value
    decreases |lines|
  {
    if lines != [] {
      var rest, k := lines[1..], if i > 0 then i - 1 else 0;
      OneLine(Text(lines[0]), h);
      HeaderMeans(Text(lines[0]), h, value);
      HostOf(rest, ParseHeader(Text(lines[0]), h), k, value);
      assert LastWith(lines, "Host:", 0) ==> NoneWith(rest, "Host:");
      assert i > 0 && LastWith(lines, "Host:", i) ==> LastWith(rest, "Host:", k);
    }
  }

  /** One keep-alive is enough. */
  lemma {:induction false} LingerOf(lines: seq<string>, h: Head)
    ensures HeadOf(lines, h).linger <==> h.linger || exists i | 0 <= i < |lines| :: KeepsAlive(Text(lines[i]))
    decreases |lines|
  {
    if lines != [] {
      var rest := lines[1..];
      OneLine(Text(lines[0]), h);
      LingerOf(rest, ParseHeader(Text(lines[0]), h));
      if i :| 0 <= i < |rest| && KeepsAlive(Text(rest[i])) {
        assert KeepsAlive(Text(lines[i + 1]));
      }
      if i :| 0 <= i < |lines| && KeepsAlive(Text(lines[i])) {
        assert i > 0 ==> KeepsAlive(Text(rest[i - 1]));
      }
    }
  }

  // ---------- The header writer ----------

  /** What add_response leaves in the write buffer: nothing is added that does not fit. */
  function Append(written: string, text: string): string {
    if |text| < WRITE_BUF_SIZE - 1 - |written| then written + text else written
  }

  function ContentLengthLine(n: int): string {
    "Content-Length: " + Decimal(n) + CRLF
  }

  function ConnectionLine(linger: bool): string {
    "Connection: " + (if linger then "keep-alive" else "close") + CRLF
  }

  function AppendHeaders(written: string, n: int, linger: bool): string {
    Append(Append(Append(written, ContentLengthLine(n)), ConnectionLine(linger)), CRLF)
  }

  function HeaderText(n: int, linger: bool): string {
    ContentLengthLine(n) + ConnectionLine(linger) + CRLF
  }

  lemma ThreeFit(w: string, a: string, b: string, c: string, text: string)
    requires a != "" && b != "" && c != "" && text == a + b + c
    ensures Append(Append(Append(w, a), b), c) == w + text <==> |w| + |text| < WRITE_BUF_SIZE - 1
  {
    assert w + text == w + a + b + c;
  }

  /** The header block comes out whole exactly when it fits with two bytes to spare. */
  lemma HeadersFit(written: string, n: int, linger: bool)
    ensures var text := "Content-Length: " + Decimal(n) + "\r\n"
                        + "Connection: " + (if linger then "keep-alive" else "close") + "\r\n\r\n";
            AppendHeaders(written, n, linger) == written + text <==> |written| + |text| <= 1022
  {
    var how := if linger then "keep-alive" else "close";
    assert HeaderText(n, linger) == "Content-Length: " + Decimal(n) + "\r\n" + "Connection: " + how + "\r\n\r\n";
    ThreeFit(written, ContentLengthLine(n), ConnectionLine(linger), CRLF, HeaderText(n, linger));
  }

  // ---------- Reading what was written, line by line ----------

  lemma ContentLengthIsRead(n: int, h: Head)
    requires -INT_MAX - 1 <= n <= INT_MAX
    ensures ParseHeader("Content-Length: " + Decimal(n), h) == h.(contentLength := n)
  {
    var line := "Content-Length: " + Decimal(n);
    var d := Decimal(n);
    assert line[..15] == "Content-Length:" && line[0] == 'C' && line[2] == 'n' && line[3] == 't';
    assert line[..11][3] == 't';
    var v := line[15..];
    assert v == " " + d && (IsDigit(d[0]) || d[0] == '-');
    SpanAt(v, " ", d, BLANK);
    assert v[1..] == d;
    DecimalRoundTrip(n);
  }

  lemma ConnectionIsRead(linger: bool, h: Head)
    ensures ParseHeader("Connection: " + (if linger then "keep-alive" else "close"), h)
         == if linger then h.(linger := true) else h
  {
    var word := if linger then "keep-alive" else "close";
    var line := "Connection: " + word;
    assert line[..11] == "Connection:";
    var v := line[11..];
    assert v == " " + word;
    SpanAt(v, " ", word, BLANK);
    assert v[1..] == word;
  }

  lemma WrittenLinesAreClean(n: int, linger: bool)
    ensures Free("Content-Length: " + Decimal(n), {CR, LF, NUL})
    ensures Free("Connection: " + (if linger then "keep-alive" else "close"), {CR, LF, NUL})
  {
    var d := Decimal(n);
    assert forall i | 0 <= i < |d| :: IsDigit(d[i]) || d[i] == '-';
  }
}
