/** The C library string functions the parsers rely on, as functions on the
    bytes of a C string (the bytes up to, not including, the terminating NUL). */
module CStrings {

  const NUL: char := '\0'
  const CR: char := '\r'
  const LF: char := '\n'
  const BLANK: set<char> := {' ', '\t'}
  const LINE_END: set<char> := {'\r', '\n'}

  /** No byte of `s` is in `chars`. */
  predicate Free(s: string, chars: set<char>) {
    forall i | 0 <= i < |s| :: s[i] !in chars
  }

  /** Every byte of `s` is in `chars`. */
  predicate Only(s: string, chars: set<char>) {
    forall i | 0 <= i < |s| :: s[i] in chars
  }

  /** strspn: how many leading bytes are in `accept`. */
  function Span(s: string, accept: set<char>): (k: nat)
    ensures k <= |s| && forall i | 0 <= i < k :: s[i] in accept
    ensures k < |s| ==> s[k] !in accept
  {
    if s == [] || s[0] !in accept then 0 else 1 + Span(s[1..], accept)
  }

  /** strpbrk and strchr: where the first byte in `stop` is; |s| when there is none. */
  function Break(s: string, stop: set<char>): (k: nat)
    ensures k <= |s| && forall i | 0 <= i < k :: s[i] !in stop
    ensures k < |s| ==> s[k] in stop
  {
    if s == [] || s[0] in stop then 0 else 1 + Break(s[1..], stop)
  }

  function Lower(c: char): char {
    if 'A' <= c <= 'Z' then (c as int + 32) as char else c
  }

  /** The same character, or the two cases of one letter from A to Z. */
  predicate SameLetter(a: char, b: char) {
    || a == b
    || ('A' <= a <= 'Z' && b as int == a as int + 32)
    || ('A' <= b <= 'Z' && a as int == b as int + 32)
  }

  predicate SameButForCase(s: string, t: string) {
    |s| == |t| && forall i | 0 <= i < |s| :: SameLetter(s[i], t[i])
  }

  /** strcasecmp(s, t) == 0, in the C locale. */
  predicate EqualIgnoringCase(s: string, t: string) {
    && |s| == |t|
    && forall i | 0 <= i < |s| :: Lower(s[i]) == Lower(t[i])
  }

  /** strncasecmp(s, t, strlen(t)) == 0. */
  predicate StartsIgnoringCase(s: string, t: string) {
    |t| <= |s| && EqualIgnoringCase(s[..|t|], t)
  }

  /** Comparing without case tells apart exactly what differs in more than the case of letters. */
  lemma IgnoringCaseIs(s: string, t: string)
    ensures EqualIgnoringCase(s, t) <==> SameButForCase(s, t)
  {
    if |s| == |t| {
      forall i | 0 <= i < |s| ensures Lower(s[i]) == Lower(t[i]) <==> SameLetter(s[i], t[i]) {
        LowerIs(s[i], t[i]);
      }
    }
  }

  lemma LowerIs(a: char, b: char)
    ensures Lower(a) == Lower(b) <==> SameLetter(a, b)
  {
  }

  /** What the C string functions see of `s`: the bytes before the first NUL. */
  function Text(s: string): (t: string)
    ensures |t| <= |s| && t == s[..|t|] && Free(t, {NUL})
    ensures |t| < |s| ==> s[|t|] == NUL
    ensures Free(s, {NUL}) ==> t == s
  {
    s[..Break(s, {NUL})]
  }

  /** The C string that starts at `p`. */
  function CString(buf: string, p: nat): (s: string)
    requires p <= |buf|
    ensures p + |s| <= |buf| && buf[p..p + |s|] == s && Free(s, {NUL})
    ensures p + |s| < |buf| ==> buf[p + |s|] == NUL
  {
    var s := Text(buf[p..]);
    assert buf[p..p + |s|] == s;
    s
  }

  lemma CStringIs(buf: string, p: nat, s: string)
    requires p + |s| < |buf| && buf[p..p + |s|] == s && Free(s, {NUL}) && buf[p + |s|] == NUL
    ensures CString(buf, p) == s
  {
    var rest := buf[p..];
    assert rest[..|s|] == s && rest[|s|] == NUL;
    assert forall i | 0 <= i < |s| :: rest[i] == s[i];
  }

  /** The C string of a line with a NUL behind it. */
  lemma CStringOfLine(buf: string, p: nat, line: string)
    requires p + |line| < |buf| && buf[p..p + |line|] == line && buf[p + |line|] == NUL
    ensures CString(buf, p) == Text(line)
  {
    var k := |Text(line)|;
    assert buf[p + k] == if k < |line| then line[k] else NUL;
    assert buf[p..p + k] == line[..k];
    CStringIs(buf, p, line[..k]);
  }

  /** A NUL ends the string at the latest where it stands. */
  lemma CStringEnds(buf: string, p: nat, e: nat)
    requires p <= e < |buf| && buf[e] == NUL
    ensures p + |CString(buf, p)| <= e
  {
    assert buf[p..][e - p] == NUL;
  }

  /** A terminated C string does not depend on the bytes that follow it. */
  lemma CStringExtend(buf: string, p: nat, more: string)
    requires p <= |buf| && p + |CString(buf, p)| < |buf|
    ensures CString(buf + more, p) == CString(buf, p)
  {
    CStringIs(buf + more, p, CString(buf, p));
  }

  /** `buf` with the bytes from `p` on overwritten by `s`. */
  function Overwrite(buf: string, p: nat, s: string): (r: string)
    requires p + |s| <= |buf|
    ensures |r| == |buf|
  {
    buf[..p] + s + buf[p + |s|..]
  }

  lemma OverwriteExtend(buf: string, p: nat, s: string, more: string)
    requires p + |s| <= |buf|
    ensures Overwrite(buf + more, p, s) == Overwrite(buf, p, s) + more
  {
    assert (buf + more)[p + |s|..] == buf[p + |s|..] + more;
  }

  lemma OverwriteTail(buf: string, p: nat, s: string, e: nat)
    requires p + |s| <= e <= |buf|
    ensures Overwrite(buf, p, s)[e..] == buf[e..]
  {
  }

  lemma OverwriteSame(buf: string, p: nat, s: string)
    requires p + |s| <= |buf| && buf[p..p + |s|] == s
    ensures Overwrite(buf, p, s) == buf
  {
  }

  lemma OverwriteOne(buf: string, p: nat, s: string, k: nat, c: char)
    requires p + |s| <= |buf| && k < |s|
    ensures Overwrite(buf, p, s)[p + k := c] == Overwrite(buf, p, s[k := c])
  {
  }
}
