/** parseHTTPHost: the host named by the first Host header of a plaintext request. */
module HttpHost {
  import opened Integers
  import opened Text

  const CR: Byte := 13
  const LF: Byte := 10
  const COLON: Byte := 58
  const OPEN: Byte := 91
  const CLOSE: Byte := 93
  const CRLF: seq<Byte> := [CR, LF]

  /** "host" */
  const HOST: seq<Byte> := [104, 111, 115, 116]

  // ------------------------------------------------------ Go's string helpers

  /** strings.Split(s, "\r\n") */
  function SplitLines(s: seq<Byte>): (lines: seq<seq<Byte>>)
    ensures |lines| >= 1
  {
    if |s| < 2 then [s]
    else if s[0] == CR && s[1] == LF then [[]] + SplitLines(s[2..])
    else StartWith(s[0], SplitLines(s[1..]))
  }

  /** The lines of [b] + s, given the lines of s, when b does not start a line break. */
  function StartWith<T>(b: T, lines: seq<seq<T>>): (r: seq<seq<T>>)
    requires |lines| >= 1
    ensures |r| == |lines|
  {
    [[b] + lines[0]] + lines[1..]
  }

  predicate IsSpace(b: Byte) { 9 <= b <= 13 || b == 32 }

  function TrimLeft(s: seq<Byte>): (r: seq<Byte>)
    ensures |r| <= |s|
  {
    if s != [] && IsSpace(s[0]) then TrimLeft(s[1..]) else s
  }

  function TrimRight(s: seq<Byte>): (r: seq<Byte>)
    ensures |r| <= |s|
  {
    if s != [] && IsSpace(s[|s| - 1]) then TrimRight(s[..|s| - 1]) else s
  }

  /** strings.TrimSpace on ASCII text. */
  function TrimSpace(s: seq<Byte>): seq<Byte> {
    TrimRight(TrimLeft(s))
  }

  function Lower(b: Byte): Byte { if 65 <= b <= 90 then b + 32 else b }

  /** strings.EqualFold(s, "host") on ASCII text. */
  predicate IsHost(s: seq<Byte>) {
    |s| == 4 && forall i :: 0 <= i < 4 ==> Lower(s[i]) == HOST[i]
  }

  /** strings.Index of a byte; -1 if it is absent. */
  function Index(s: seq<Byte>, c: Byte): (i: int)
    ensures -1 <= i < |s|
    ensures i >= 0 ==> s[i] == c && c !in s[..i]
    ensures i < 0 ==> c !in s
  {
    if s == [] then -1
    else if s[0] == c then 0
    else
      var i := Index(s[1..], c);
      if i < 0 then -1 else i + 1
  }

  /** strings.LastIndex of a byte; -1 if it is absent. */
  function LastIndex(s: seq<Byte>, c: Byte): (i: int)
    ensures -1 <= i < |s|
    ensures i >= 0 ==> s[i] == c && c !in s[i + 1..]
    ensures i < 0 ==> c !in s
  {
    if s == [] then -1
    else if s[|s| - 1] == c then |s| - 1
    else LastIndex(s[..|s| - 1], c)
  }

  /** The host that net.SplitHostPort finds; None is its error. */
  function SplitHostPort(s: seq<Byte>): (host: Option<seq<Byte>>)
    ensures host.Some? ==> |host.value| <= |s|
  {
    var i := LastIndex(s, COLON);
    if i < 0 then None
    else if s[0] == OPEN then
      var end := Index(s, CLOSE);
      if end < 0 || end + 1 != i || OPEN in s[1..] || CLOSE in s[end + 1..] then None else Some(s[1..end])
    else if COLON in s[..i] || OPEN in s || CLOSE in s then None
    else Some(s[..i])
  }

  // ------------------------------------------------------------------- parser

  /** The value of a line that is a Host header. */
  function HostValue(line: seq<Byte>): Option<seq<Byte>> {
    match Cut(line, COLON)
    case None => None
    case Some((name, value)) => if IsHost(TrimSpace(name)) then Some(value) else None
  }

  function HostOf(value: seq<Byte>): seq<Byte> {
    var host := TrimSpace(value);
    var split := SplitHostPort(host);
    if split.Some? then split.value else host
  }

  /** The first Host header decides, even if it names no host. */
  function FirstHost(lines: seq<seq<Byte>>): Option<seq<Byte>> {
    if lines == [] then None
    else
      match HostValue(lines[0])
      case None => FirstHost(lines[1..])
      case Some(value) => if HostOf(value) == [] then None else Some(HostOf(value))
  }

  /** parseHTTPHost; None is ok = false. */
  function ParseHost(data: seq<Byte>): Option<seq<Byte>> {
    FirstHost(SplitLines(data))
  }

  method ParseHttpHost(data: seq<Byte>) returns (host: seq<Byte>, ok: bool)
    ensures ok <==> ParseHost(data).Some?
    ensures ok ==> host == ParseHost(data).value
    ensures !ok ==> host == []
  {
    var lines := SplitLines(data);
    for i := 0 to |lines|
      invariant FirstHost(lines) == FirstHost(lines[i..])
    {
      var line := lines[i];
      var cut := Cut(line, COLON);
      if cut.None? || !IsHost(TrimSpace(cut.value.0)) {
        continue;
      }
      host := TrimSpace(cut.value.1);
      var split := SplitHostPort(host);
      if split.Some? {
        host := split.value;
      }
      return host, host != [];
    }
    return [], false;
  }

  // -------------------------------------------------------------------- lines

  lemma {:induction false} SplitAtCrlf(a: seq<Byte>, b: seq<Byte>)
    ensures SplitLines(a + CRLF + b) == SplitLines(a) + SplitLines(b)
  {
    if a == [] {
      BreakStep(a + CRLF + b, b);
    } else if |a| >= 2 && a[0] == CR && a[1] == LF {
      SplitAtCrlf(a[2..], b);
      BreakBefore(a, a[2..], b);
    } else {
      SplitAtCrlf(a[1..], b);
      ByteBefore(a, a[1..], b);
    }
  }

  lemma BreakBefore(a: seq<Byte>, rest: seq<Byte>, b: seq<Byte>)
    requires a == CRLF + rest && SplitLines(rest + CRLF + b) == SplitLines(rest) + SplitLines(b)
    ensures SplitLines(a + CRLF + b) == SplitLines(a) + SplitLines(b)
  {
    assert a + CRLF + b == CRLF + (rest + CRLF + b);
    BreakStep(a + CRLF + b, rest + CRLF + b);
    BreakStep(a, rest);
    Associated([[]], SplitLines(rest), SplitLines(b));
  }

  lemma ByteBefore(a: seq<Byte>, rest: seq<Byte>, b: seq<Byte>)
    requires a != [] && a == [a[0]] + rest && !(a[0] == CR && rest != [] && rest[0] == LF)
    requires SplitLines(rest + CRLF + b) == SplitLines(rest) + SplitLines(b)
    ensures SplitLines(a + CRLF + b) == SplitLines(a) + SplitLines(b)
  {
    assert a + CRLF + b == [a[0]] + (rest + CRLF + b);
    LineStep(a + CRLF + b, rest + CRLF + b);
    LineStep(a, rest);
    StartWithAppend(a[0], SplitLines(rest), SplitLines(b));
  }

  lemma Associated<T>(a: seq<T>, b: seq<T>, c: seq<T>)
    ensures a + (b + c) == a + b + c
  {
  }

  lemma BreakStep(s: seq<Byte>, rest: seq<Byte>)
    requires s == CRLF + rest
    ensures SplitLines(s) == [[]] + SplitLines(rest)
  {
    assert s[2..] == rest;
  }

  lemma LineStep(s: seq<Byte>, rest: seq<Byte>)
    requires s != [] && s == [s[0]] + rest && !(s[0] == CR && rest != [] && rest[0] == LF)
    ensures SplitLines(s) == StartWith(s[0], SplitLines(rest))
  {
    assert s[1..] == rest;
    if rest == [] {
      assert SplitLines(s) == [s] && SplitLines(rest) == [[]];
      assert [s[0]] + [] == s;
      assert [[s[0]] + rest] + [rest][1..] == [s];
    }
  }

  lemma StartWithAppend<T>(b: T, x: seq<seq<T>>, y: seq<seq<T>>)
    requires |x| >= 1
    ensures StartWith(b, x + y) == StartWith(b, x) + y
  {
    assert (x + y)[0] == x[0] && (x + y)[1..] == x[1..] + y;
  }

  predicate NoCrlf(s: seq<Byte>) {
    forall i :: 0 <= i < |s| - 1 ==> !(s[i] == CR && s[i + 1] == LF)
  }

  lemma {:induction false} SplitNoCrlf(s: seq<Byte>)
    requires NoCrlf(s)
    ensures SplitLines(s) == [s]
  {
    if |s| >= 2 {
      SplitNoCrlf(s[1..]);
      assert s == [s[0]] + s[1..];
    }
  }

  function Init<T>(lines: seq<T>): seq<T>
    requires lines != []
  {
    lines[..|lines| - 1]
  }

  function Last<T>(lines: seq<T>): T
    requires lines != []
  {
    lines[|lines| - 1]
  }

  /** Bytes that arrive later only change the last, unterminated line. */
  lemma {:induction false} SplitExtended(d: seq<Byte>, x: seq<Byte>)
    ensures NoCrlf(Last(SplitLines(d)))
    ensures SplitLines(d + x) == Init(SplitLines(d)) + SplitLines(Last(SplitLines(d)) + x)
  {
    var lines := SplitLines(d);
    if |lines| == 1 {
      SplitWholeLine(d);
      assert Init(lines) + SplitLines(d + x) == SplitLines(d + x);
    } else if d[0] == CR && d[1] == LF {
      SplitExtended(d[2..], x);
      assert d + x == CRLF + (d[2..] + x);
      BreakStep(d + x, d[2..] + x);
      InitLast([[]], SplitLines(d[2..]), SplitLines(Last(lines) + x));
    } else {
      SplitExtended(d[1..], x);
      LineStep(d + x, d[1..] + x);
      var rest := SplitLines(d[1..]);
      StartWithAppend(d[0], Init(rest), SplitLines(Last(rest) + x));
      assert rest == Init(rest) + [Last(rest)];
      StartWithAppend(d[0], Init(rest), [Last(rest)]);
    }
  }

  lemma InitLast<T>(a: seq<T>, b: seq<T>, c: seq<T>)
    requires b != []
    ensures Init(a + b) == a + Init(b) && Last(a + b) == Last(b) && a + (Init(b) + c) == Init(a + b) + c
  {
  }

  lemma {:induction false} SplitWholeLine(d: seq<Byte>)
    requires |SplitLines(d)| == 1
    ensures SplitLines(d) == [d] && NoCrlf(d)
  {
    if |d| >= 2 {
      SplitWholeLine(d[1..]);
      assert d == [d[0]] + d[1..];
      forall i | 0 <= i < |d| - 1 ensures !(d[i] == CR && d[i + 1] == LF) {
        if i > 0 {
          assert !(d[1..][i - 1] == CR && d[1..][i] == LF);
        }
      }
    }
  }
}
