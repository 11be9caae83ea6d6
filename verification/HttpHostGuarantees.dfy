/** What parseHTTPHost finds in printed requests, and when bytes yet to come can change it. */
module HttpHostGuarantees {
  import opened Integers
  import opened Text
  import opened HttpHost

  // --------------------------------------------------------------- first host

  lemma {:induction false} SkipNonHosts(before: seq<seq<Byte>>, after: seq<seq<Byte>>)
    requires forall i :: 0 <= i < |before| ==> HostValue(before[i]).None?
    ensures FirstHost(before + after) == FirstHost(after)
  {
    if before == [] {
      assert before + after == after;
    } else {
      SkipNonHosts(before[1..], after);
      assert (before + after)[1..] == before[1..] + after;
    }
  }

  lemma {:induction false} FirstHostDecides(lines: seq<seq<Byte>>, k: nat)
    requires k < |lines| && HostValue(lines[k]).Some? && forall i :: 0 <= i < k ==> HostValue(lines[i]).None?
    ensures var host := HostOf(HostValue(lines[k]).value);
      FirstHost(lines) == if host == [] then None else Some(host)
  {
    assert lines == lines[..k] + lines[k..];
    SkipNonHosts(lines[..k], lines[k..]);
  }

  // ---------------------------------------------------------------- host syntax

  /** A trimmed, non-empty reg-name or IPv4 host: no space, colon or bracket in it. */
  predicate PlainHost(host: seq<Byte>) {
    host != [] && forall i :: 0 <= i < |host| ==> !IsSpace(host[i]) && host[i] !in [COLON, OPEN, CLOSE]
  }

  /** Nothing, or a colon and a port (section 7.2 of RFC 9110). */
  predicate OptionalPort(port: seq<Byte>) {
    port == [] || (port[0] == COLON && forall i :: 1 <= i < |port| ==> 48 <= port[i] <= 57)
  }

  predicate AllSpace(s: seq<Byte>) {
    forall i :: 0 <= i < |s| ==> IsSpace(s[i])
  }

  lemma {:induction false} TrimLeftOf(spaces: seq<Byte>, s: seq<Byte>)
    requires AllSpace(spaces) && (s == [] || !IsSpace(s[0]))
    ensures TrimLeft(spaces + s) == s
  {
    if spaces == [] {
      assert spaces + s == s;
    } else {
      TrimLeftOf(spaces[1..], s);
      assert (spaces + s)[1..] == spaces[1..] + s;
    }
  }

  lemma {:induction false} TrimRightOf(s: seq<Byte>, spaces: seq<Byte>)
    requires AllSpace(spaces) && (s == [] || !IsSpace(s[|s| - 1]))
    ensures TrimRight(s + spaces) == s
  {
    if spaces == [] {
      assert s + spaces == s;
    } else {
      var n := |spaces| - 1;
      TrimRightOf(s, spaces[..n]);
      assert (s + spaces)[..|s| + n] == s + spaces[..n];
    }
  }

  lemma TrimSpaceOf(before: seq<Byte>, s: seq<Byte>, after: seq<Byte>)
    requires AllSpace(before) && AllSpace(after) && s != [] && !IsSpace(s[0]) && !IsSpace(s[|s| - 1])
    ensures TrimSpace(before + s + after) == s
  {
    assert before + s + after == before + (s + after);
    TrimLeftOf(before, s + after);
    TrimRightOf(s, after);
  }

  lemma {:induction false} LastIndexIs(s: seq<Byte>, c: Byte, k: nat)
    requires k < |s| && s[k] == c && forall i :: k < i < |s| ==> s[i] != c
    ensures LastIndex(s, c) == k
  {
    if k < |s| - 1 {
      LastIndexIs(s[..|s| - 1], c, k);
    }
  }

  lemma {:induction false} IndexIs(s: seq<Byte>, c: Byte, k: nat)
    requires k < |s| && s[k] == c && forall i :: 0 <= i < k ==> s[i] != c
    ensures Index(s, c) == k
  {
    if k > 0 {
      IndexIs(s[1..], c, k - 1);
    }
  }

  /** A host as a Host field names it: a name or IPv4 address, or an IPv6 address in brackets. */
  datatype Host = Name(name: seq<Byte>) | Bracketed(v6: seq<Byte>)

  predicate WellFormed(h: Host) {
    match h
    case Name(name) => PlainHost(name)
    case Bracketed(v6) => v6 != [] && forall i :: 0 <= i < |v6| ==> !IsSpace(v6[i]) && v6[i] !in [OPEN, CLOSE]
  }

  function Printed(h: Host): seq<Byte> {
    match h case Name(name) => name case Bracketed(v6) => [OPEN] + v6 + [CLOSE]
  }

  /** What parseHTTPHost takes it for: a port takes the brackets away with it, without one they stay. */
  function ReadAs(h: Host, port: seq<Byte>): seq<Byte> {
    if h.Bracketed? && port != [] then h.v6 else Printed(h)
  }

  lemma HostWithoutPort(host: seq<Byte>, port: seq<Byte>)
    requires PlainHost(host) && OptionalPort(port)
    ensures var split := SplitHostPort(host + port); if port == [] then split.None? else split == Some(host)
  {
    if port == [] {
      assert host + port == host;
    } else {
      var s := host + port;
      LastIndexIs(s, COLON, |host|);
      assert s[..|host|] == host;
      assert forall i :: 0 <= i < |s| ==> s[i] == if i < |host| then host[i] else port[i - |host|];
    }
  }

  /** s is a bracket, anything without brackets, and a closing bracket at end. */
  predicate InBrackets(s: seq<Byte>, end: nat) {
    && 0 < end < |s| && s[0] == OPEN && s[end] == CLOSE
    && (forall i :: 1 <= i < |s| ==> s[i] != OPEN) && (forall i :: 0 <= i < |s| && i != end ==> s[i] != CLOSE)
  }

  lemma SplitBracketsOnly(s: seq<Byte>)
    requires s != [] && InBrackets(s, |s| - 1)
    ensures SplitHostPort(s) == None
  {
    IndexIs(s, CLOSE, |s| - 1);
  }

  lemma SplitBracketsPort(s: seq<Byte>, end: nat)
    requires InBrackets(s, end) && end + 1 < |s| && s[end + 1] == COLON
    requires forall i :: end + 1 < i < |s| ==> s[i] != COLON
    ensures SplitHostPort(s) == Some(s[1..end])
  {
    IndexIs(s, CLOSE, end);
    LastIndexIs(s, COLON, end + 1);
  }

  lemma PrintedBrackets(v6: seq<Byte>, port: seq<Byte>)
    requires WellFormed(Bracketed(v6)) && OptionalPort(port)
    ensures InBrackets([OPEN] + v6 + [CLOSE] + port, |v6| + 1)
  {
  }

  lemma BracketsWithoutPort(v6: seq<Byte>, port: seq<Byte>)
    requires WellFormed(Bracketed(v6)) && OptionalPort(port)
    ensures var split := SplitHostPort([OPEN] + v6 + [CLOSE] + port);
      if port == [] then split.None? else split == Some(v6)
  {
    var s, end := [OPEN] + v6 + [CLOSE] + port, |v6| + 1;
    PrintedBrackets(v6, port);
    if port == [] {
      SplitBracketsOnly(s);
    } else {
      assert s[1..end] == v6 && s[end + 1..] == port;
      forall i | end + 1 < i < |s| ensures s[i] != COLON {
        assert s[i] == port[i - end - 1];
      }
      SplitBracketsPort(s, end);
    }
  }

  lemma HostIsReadAs(h: Host, port: seq<Byte>)
    requires WellFormed(h) && OptionalPort(port)
    ensures SplitHostPort(Printed(h) + port).GetOr(Printed(h) + port) == ReadAs(h, port)
  {
    match h {
      case Name(name) => HostWithoutPort(name, port);
      case Bracketed(v6) => BracketsWithoutPort(v6, port);
    }
    assert port == [] ==> Printed(h) + port == Printed(h);
  }

  /** What is printed of a host and its port begins and ends with no space. */
  lemma EdgesAreNoSpace(h: Host, port: seq<Byte>)
    requires WellFormed(h) && OptionalPort(port)
    ensures var s := Printed(h) + port; s != [] && !IsSpace(s[0]) && !IsSpace(s[|s| - 1])
  {
    var p, s := Printed(h), Printed(h) + port;
    assert p != [] && !IsSpace(p[0]) && !IsSpace(p[|p| - 1]);
    assert s[0] == p[0] && s[|s| - 1] == if port == [] then p[|p| - 1] else port[|port| - 1];
  }

  /** s holds no colon and no bracket, or no bracket at all. */
  predicate Plain(s: seq<Byte>) { COLON !in s && OPEN !in s && CLOSE !in s }
  predicate Unbracketed(s: seq<Byte>) { OPEN !in s && CLOSE !in s }

  /** s is host:port, or [host]:port where the host may hold colons; no other brackets, and no colon in the port. */
  ghost predicate IsHostPort(s: seq<Byte>, host: seq<Byte>) {
    exists port: seq<Byte> :: Plain(port) && IsJoined(s, host, port)
  }

  predicate IsJoined(s: seq<Byte>, host: seq<Byte>, port: seq<Byte>) {
    (Plain(host) && s == host + [COLON] + port) || (Unbracketed(host) && s == [OPEN] + host + [CLOSE, COLON] + port)
  }

  lemma JoinedIsSplit(s: seq<Byte>, host: seq<Byte>, port: seq<Byte>)
    requires Plain(port) && IsJoined(s, host, port)
    ensures SplitHostPort(s) == Some(host)
  {
    if Plain(host) && s == host + [COLON] + port {
      PlainIsSplit(s, host, port);
    } else {
      JoinedBrackets(s, host, port);
      SplitBracketsPort(s, |host| + 1);
      assert s[1..|host| + 1] == host;
    }
  }

  lemma PlainIsSplit(s: seq<Byte>, host: seq<Byte>, port: seq<Byte>)
    requires Plain(host) && Plain(port) && s == host + [COLON] + port
    ensures SplitHostPort(s) == Some(host)
  {
    JoinedPlain(s, host, port);
    LastIndexIs(s, COLON, |host|);
  }

  lemma JoinedPlain(s: seq<Byte>, host: seq<Byte>, port: seq<Byte>)
    requires Plain(host) && Plain(port) && s == host + [COLON] + port
    ensures Unbracketed(s) && s[|host|] == COLON && s[..|host|] == host
    ensures forall i :: |host| < i < |s| ==> s[i] != COLON
  {
    assert forall i :: |host| < i < |s| ==> s[i] == port[i - |host| - 1];
  }

  lemma JoinedBrackets(s: seq<Byte>, host: seq<Byte>, port: seq<Byte>)
    requires Unbracketed(host) && Plain(port) && s == [OPEN] + host + [CLOSE, COLON] + port
    ensures InBrackets(s, |host| + 1) && s[|host| + 2] == COLON
    ensures forall i :: |host| + 2 < i < |s| ==> s[i] != COLON
  {
  }

  lemma SplitIsJoined(s: seq<Byte>) returns (port: seq<Byte>)
    requires SplitHostPort(s).Some?
    ensures Plain(port) && IsJoined(s, SplitHostPort(s).value, port)
  {
    var i := LastIndex(s, COLON);
    port := s[i + 1..];
    if s[0] == OPEN {
      BracketsAreJoined(s, i);
    } else {
      PlainIsJoined(s, i);
    }
  }

  lemma PlainIsJoined(s: seq<Byte>, i: nat)
    requires i < |s| && s[i] == COLON && COLON !in s[i + 1..] && COLON !in s[..i] && Unbracketed(s)
    ensures Plain(s[i + 1..]) && Plain(s[..i]) && s == s[..i] + [COLON] + s[i + 1..]
  {
  }

  lemma BracketsAreJoined(s: seq<Byte>, i: nat)
    requires 0 < i < |s| && s[i] == COLON && COLON !in s[i + 1..] && s[0] == OPEN && OPEN !in s[1..]
    requires s[i - 1] == CLOSE && CLOSE !in s[..i - 1] && CLOSE !in s[i..] && 1 < i
    ensures Plain(s[i + 1..]) && Unbracketed(s[1..i - 1]) && s == [OPEN] + s[1..i - 1] + [CLOSE, COLON] + s[i + 1..]
  {
    Narrower(s, OPEN, 1, |s|, i + 1, |s|);
    Narrower(s, CLOSE, i, |s|, i + 1, |s|);
    Narrower(s, OPEN, 1, |s|, 1, i - 1);
    Narrower(s, CLOSE, 0, i - 1, 1, i - 1);
    FourPieces(s, i);
  }

  lemma Narrower<T>(s: seq<T>, x: T, a: nat, b: nat, c: nat, d: nat)
    requires a <= c <= d <= b <= |s| && x !in s[a..b]
    ensures x !in s[c..d]
  {
    assert forall k :: 0 <= k < d - c ==> s[c..d][k] == s[a..b][c - a + k];
  }

  lemma FourPieces<T>(s: seq<T>, i: nat)
    requires 1 < i < |s|
    ensures s == [s[0]] + s[1..i - 1] + [s[i - 1], s[i]] + s[i + 1..]
  {
  }

  /** net.SplitHostPort: exactly the texts of the two forms are split, and at the right place. */
  lemma SplitHostPortIff(s: seq<Byte>, host: seq<Byte>)
    ensures SplitHostPort(s) == Some(host) <==> IsHostPort(s, host)
  {
    if SplitHostPort(s) == Some(host) {
      var port := SplitIsJoined(s);
      assert Plain(port) && IsJoined(s, host, port);
    }
    if IsHostPort(s, host) {
      var port: seq<Byte> :| Plain(port) && IsJoined(s, host, port);
      JoinedIsSplit(s, host, port);
    }
  }

  // ------------------------------------------------------------- Host headers

  /** "host" in any letter case, the six ASCII spaces, and the separators. */
  lemma Spellings(s: seq<Byte>, b: Byte)
    ensures IsHost(s) <==>
      |s| == 4 && s[0] in [72, 104] && s[1] in [79, 111] && s[2] in [83, 115] && s[3] in [84, 116]
    ensures IsSpace(b) <==> b in [9, 10, 11, 12, 13, 32]
    ensures CRLF == [13, 10] && COLON == 58 && OPEN == 91 && CLOSE == 93
  {
    if |s| == 4 {
      assert IsHost(s) <==> Lower(s[0]) == 104 && Lower(s[1]) == 111 && Lower(s[2]) == 115 && Lower(s[3]) == 116;
    }
  }

  /** The line names the Host field: "host", in any letter case and with spaces around it, a colon, and a value. */
  ghost predicate HostHeader(line: seq<Byte>) {
    exists before: seq<Byte>, name: seq<Byte>, after: seq<Byte>, value: seq<Byte> ::
      HeaderParts(line, before, name, after, value)
  }

  predicate HeaderParts(line: seq<Byte>, before: seq<Byte>, name: seq<Byte>, after: seq<Byte>, value: seq<Byte>) {
    AllSpace(before) && AllSpace(after) && IsHost(name) && line == before + name + after + [COLON] + value
  }

  lemma {:induction false} TrimLeftParts(s: seq<Byte>) returns (before: seq<Byte>)
    ensures AllSpace(before) && s == before + TrimLeft(s)
  {
    before := [];
    if s != [] && IsSpace(s[0]) {
      var more := TrimLeftParts(s[1..]);
      before := [s[0]] + more;
      assert s == [s[0]] + s[1..];
    }
  }

  lemma {:induction false} TrimRightParts(s: seq<Byte>) returns (after: seq<Byte>)
    ensures AllSpace(after) && s == TrimRight(s) + after
  {
    after := [];
    if s != [] && IsSpace(s[|s| - 1]) {
      var more := TrimRightParts(s[..|s| - 1]);
      after := more + [s[|s| - 1]];
      assert s == s[..|s| - 1] + [s[|s| - 1]];
    }
  }

  lemma PartsAreHeader(line: seq<Byte>, before: seq<Byte>, name: seq<Byte>, after: seq<Byte>, value: seq<Byte>)
    requires HeaderParts(line, before, name, after, value)
    ensures HostValue(line) == Some(value)
  {
    HostName(name);
    var field := before + name + after;
    forall i | 0 <= i < |field| ensures field[i] != COLON {
      assert i < |before| ==> IsSpace(before[i]);
      assert |before| + |name| <= i ==> IsSpace(after[i - |before| - |name|]);
    }
    CutAtFirst(field, COLON, value);
    forall i | 0 <= i < 4 ensures !IsSpace(name[i]) {
      assert Lower(name[i]) == HOST[i];
    }
    TrimSpaceOf(before, name, after);
  }

  /** A line decides the host if and only if it names the Host field. */
  lemma HostHeaderIff(line: seq<Byte>)
    ensures HostValue(line).Some? <==> HostHeader(line)
  {
    if HostValue(line).Some? {
      var cut := Cut(line, COLON).value;
      var before := TrimLeftParts(cut.0);
      var after := TrimRightParts(TrimLeft(cut.0));
      assert HeaderParts(line, before, TrimSpace(cut.0), after, cut.1);
    }
    if HostHeader(line) {
      var before, name, after, value :| HeaderParts(line, before, name, after, value);
      PartsAreHeader(line, before, name, after, value);
    }
  }

  /** Bytes without a line that names the Host field yield no host. */
  lemma NoHostHeader(data: seq<Byte>)
    requires forall i :: 0 <= i < |SplitLines(data)| ==> !HostHeader(SplitLines(data)[i])
    ensures ParseHost(data) == None
  {
    var lines := SplitLines(data);
    forall i | 0 <= i < |lines| ensures HostValue(lines[i]).None? {
      HostHeaderIff(lines[i]);
    }
    SkipNonHosts(lines, []);
    assert lines + [] == lines;
  }

  // -------------------------------------------------------------- encoder inverse

  function Terminated(lines: seq<seq<Byte>>): seq<Byte> {
    if lines == [] then [] else lines[0] + CRLF + Terminated(lines[1..])
  }

  lemma {:induction false} SplitTerminated(lines: seq<seq<Byte>>, rest: seq<Byte>)
    requires forall i :: 0 <= i < |lines| ==> NoCrlf(lines[i])
    ensures SplitLines(Terminated(lines) + rest) == lines + SplitLines(rest)
  {
    if lines == [] {
      assert Terminated(lines) + rest == rest;
    } else {
      SplitTerminated(lines[1..], rest);
      FirstTerminated(lines[0], Terminated(lines[1..]), rest);
      assert [lines[0]] + (lines[1..] + SplitLines(rest)) == lines + SplitLines(rest);
    }
  }

  lemma FirstTerminated(line: seq<Byte>, more: seq<Byte>, rest: seq<Byte>)
    requires NoCrlf(line)
    ensures SplitLines(line + CRLF + more + rest) == [line] + SplitLines(more + rest)
  {
    SplitAtCrlf(line, more + rest);
    SplitNoCrlf(line);
    assert line + CRLF + more + rest == line + CRLF + (more + rest);
  }

  /** A Host field line: the name in any letter case, optional whitespace around host and port. */
  function HostLine(name: seq<Byte>, before: seq<Byte>, host: Host, port: seq<Byte>, after: seq<Byte>): seq<Byte> {
    name + [COLON] + (before + (Printed(host) + port) + after)
  }

  lemma HostName(name: seq<Byte>)
    requires IsHost(name)
    ensures COLON !in name && TrimSpace(name) == name
  {
    forall i | 0 <= i < 4 ensures name[i] != COLON && !IsSpace(name[i]) {
      assert Lower(name[i]) == HOST[i];
    }
    TrimSpaceOf([], name, []);
    assert [] + name + [] == name;
  }

  lemma HostLineValue(name: seq<Byte>, before: seq<Byte>, host: Host, port: seq<Byte>, after: seq<Byte>)
    requires IsHost(name) && WellFormed(host) && OptionalPort(port) && AllSpace(before) && AllSpace(after)
    ensures var v := HostValue(HostLine(name, before, host, port, after));
      v.Some? && HostOf(v.value) == ReadAs(host, port)
  {
    var hostport := Printed(host) + port;
    HostName(name);
    CutAtFirst(name, COLON, before + hostport + after);
    EdgesAreNoSpace(host, port);
    TrimSpaceOf(before, hostport, after);
    HostIsReadAs(host, port);
  }

  /**
   Encoder inverse: of any request whose first Host line names a host, with or without a port,
   parseHTTPHost returns that host, whatever precedes and follows; an IPv6 address loses its
   brackets with a port and keeps them without one.
   */
  lemma HostOfRequest(lines: seq<seq<Byte>>, name: seq<Byte>, before: seq<Byte>, host: Host,
                                        port: seq<Byte>, after: seq<Byte>, rest: seq<Byte>)
    requires forall i :: 0 <= i < |lines| ==> NoCrlf(lines[i]) && HostValue(lines[i]).None?
    requires IsHost(name) && WellFormed(host) && OptionalPort(port) && AllSpace(before) && AllSpace(after)
    requires NoCrlf(HostLine(name, before, host, port, after))
    ensures ParseHost(Terminated(lines) + (HostLine(name, before, host, port, after) + CRLF + rest)) ==
      Some(ReadAs(host, port))
  {
    var line := HostLine(name, before, host, port, after);
    SplitTerminated(lines, line + CRLF + rest);
    SplitAtCrlf(line, rest);
    SplitNoCrlf(line);
    HostLineValue(name, before, host, port, after);
    var all := lines + ([line] + SplitLines(rest));
    assert all[|lines|] == line;
    FirstHostDecides(all, |lines|);
  }

  // -------------------------------------------------------------------- stability

  /** A Host header line has been received up to and including its CRLF. */
  ghost predicate HostLineComplete(d: seq<Byte>) {
    exists i :: 0 <= i < |SplitLines(d)| - 1 && HostValue(SplitLines(d)[i]).Some?
  }

  lemma CompleteIsStable(d: seq<Byte>, x: seq<Byte>)
    requires HostLineComplete(d)
    ensures ParseHost(d + x) == ParseHost(d)
  {
    var lines := SplitLines(d);
    var k :| 0 <= k < |lines| - 1 && HostValue(lines[k]).Some?;
    var first := FirstHostIndex(lines, k);
    SplitExtended(d, x);
    var longer := Init(lines) + SplitLines(Last(lines) + x);
    assert forall i :: 0 <= i <= first ==> longer[i] == lines[i];
    FirstHostDecides(lines, first);
    FirstHostDecides(longer, first);
  }

  lemma {:induction false} FirstHostIndex(lines: seq<seq<Byte>>, k: nat) returns (first: nat)
    requires k < |lines| && HostValue(lines[k]).Some?
    ensures first <= k && HostValue(lines[first]).Some? && forall i :: 0 <= i < first ==> HostValue(lines[i]).None?
    decreases k
  {
    if i :| 0 <= i < k && HostValue(lines[i]).Some? {
      first := FirstHostIndex(lines, i);
    } else {
      first := k;
    }
  }

  /** "host:a" */
  const HOST_A: seq<Byte> := [104, 111, 115, 116, 58, 97]
  const ANOTHER_HOST: seq<Byte> := CRLF + HOST_A

  /** "::z" */
  const MORE_VALUE: seq<Byte> := [58, 58, 122]

  lemma {:induction false} TrimLeftExtended(v: seq<Byte>)
    ensures TrimLeft(v + MORE_VALUE) == TrimLeft(v) + MORE_VALUE
  {
    if v == [] {
      assert v + MORE_VALUE == MORE_VALUE == TrimLeft(v) + MORE_VALUE;
    } else {
      TrimLeftExtended(v[1..]);
      assert (v + MORE_VALUE)[1..] == v[1..] + MORE_VALUE;
    }
  }

  lemma NoHostPort(s: seq<Byte>)
    ensures SplitHostPort(s + MORE_VALUE) == None
  {
    var t := s + MORE_VALUE;
    var n := |s|;
    LastIndexIs(t, COLON, n + 1);
    assert t[..n + 1][n] == COLON;
  }

  /** A Host value still being received can always turn into a longer host. */
  lemma ValueCanGrow(v: seq<Byte>)
    ensures |HostOf(v + MORE_VALUE)| > |HostOf(v)|
  {
    var t := TrimLeft(v) + MORE_VALUE;
    TrimLeftExtended(v);
    assert TrimRight(t) == t;
    NoHostPort(TrimLeft(v));
  }

  lemma UnfinishedCanChange(d: seq<Byte>) returns (x: seq<Byte>)
    requires !HostLineComplete(d)
    ensures ParseHost(d + x) != ParseHost(d)
  {
    var lines := SplitLines(d);
    var last := Last(lines);
    assert lines == Init(lines) + [last];
    SkipNonHosts(Init(lines), [last]);
    x := if HostValue(last).None? then ANOTHER_HOST else MORE_VALUE;
    SplitExtended(d, x);
    SkipNonHosts(Init(lines), SplitLines(last + x));
    if HostValue(last).None? {
      AnotherHostAppears(last);
    } else {
      LastValueGrows(last);
    }
  }

  lemma HostAValue()
    ensures NoCrlf(HOST_A) && HostValue(HOST_A).Some? && HostOf(HostValue(HOST_A).value) == [97]
  {
    assert HOST_A == HostLine(HOST, [], Name([97]), [], []);
    HostLineValue(HOST, [], Name([97]), [], []);
  }

  lemma AnotherHostAppears(last: seq<Byte>)
    requires NoCrlf(last) && HostValue(last).None?
    ensures FirstHost(SplitLines(last + ANOTHER_HOST)) == Some([97]) && FirstHost([last]) == None
  {
    HostAValue();
    Associated(last, CRLF, HOST_A);
    LineAppears(last, HOST_A);
    NoHostAlone(last);
  }

  lemma NoHostAlone(line: seq<Byte>)
    requires HostValue(line).None?
    ensures FirstHost([line]) == None
  {
    assert FirstHost([line][1..]) == None;
  }

  lemma LineAppears(last: seq<Byte>, line: seq<Byte>)
    requires NoCrlf(last) && HostValue(last).None? && NoCrlf(line) && HostValue(line).Some?
    requires HostOf(HostValue(line).value) != []
    ensures FirstHost(SplitLines(last + CRLF + line)) == Some(HostOf(HostValue(line).value))
  {
    AppendLine(last, line);
    FirstHostDecides([last] + [line], 1);
  }

  lemma AppendLine(last: seq<Byte>, line: seq<Byte>)
    requires NoCrlf(last) && NoCrlf(line)
    ensures SplitLines(last + CRLF + line) == [last] + [line]
  {
    SplitAtCrlf(last, line);
    SplitNoCrlf(last);
    SplitNoCrlf(line);
  }

  lemma LastValueGrows(last: seq<Byte>)
    requires NoCrlf(last) && HostValue(last).Some?
    ensures FirstHost(SplitLines(last + MORE_VALUE)) != FirstHost([last])
  {
    var cut := Cut(last, COLON).value;
    assert last + MORE_VALUE == cut.0 + [COLON] + (cut.1 + MORE_VALUE);
    CutAtFirst(cut.0, COLON, cut.1 + MORE_VALUE);
    SplitNoCrlf(last + MORE_VALUE);
    ValueCanGrow(cut.1);
    FirstHostDecides([last + MORE_VALUE], 0);
    FirstHostDecides([last], 0);
  }

  /**
   When the answer is final: no bytes still to come can change what parseHTTPHost returns
   if and only if a Host line has been received up to and including its CRLF.
   */
  lemma StableIff(d: seq<Byte>)
    ensures HostLineComplete(d) <==> forall x: seq<Byte> :: ParseHost(d + x) == ParseHost(d)
  {
    if HostLineComplete(d) {
      forall x: seq<Byte> ensures ParseHost(d + x) == ParseHost(d) {
        CompleteIsStable(d, x);
      }
    } else {
      var x := UnfinishedCanChange(d);
    }
  }
}
