/**
 The WireGuard device's status text: parsePeerStatuses, which folds its lines into the peer
 it saw last, and waitForHandshake, which polls it until some peer has completed a handshake.
 */
module Uapi {
  import opened Text
  import opened Addresses
  import opened Integers

  datatype Prefix = Prefix(addr: Addr, bits: nat)

  /** peerStatus; lastHandshake is in seconds, None is the zero time. */
  datatype PeerStatus = PeerStatus(endpoint: string, allowedIPs: seq<Prefix>, lastHandshake: Option<int>,
                                   txBytes: nat, rxBytes: nat)

  const NO_STATUS := PeerStatus("", [], None, 0, 0)

  // ------------------------------------------------------------------ numbers

  datatype Scan = Good(n: nat) | BadSyntax | OutOfRange

  predicate IsDigit(c: char) { '0' <= c <= '9' }

  function DigitValue(c: char): (d: nat)
    requires IsDigit(c)
    ensures d < 10
  {
    c as int - '0' as int
  }

  /** strconv's digit loop, in base 10, having read n so far: the first fault decides. */
  function ScanDigits(s: string, n: nat): Scan {
    if s == "" then Good(n)
    else if !IsDigit(s[0]) then BadSyntax
    else if n * 10 + DigitValue(s[0]) > MAX_UINT64 then OutOfRange
    else ScanDigits(s[1..], n * 10 + DigitValue(s[0]))
  }

  function ScanUint(s: string): Scan {
    if s == "" then BadSyntax else ScanDigits(s, 0)
  }

  /** The value strconv.ParseUint(s, 10, 64) returns beside its error, which the caller drops. */
  function UintValue(s: string): nat {
    match ScanUint(s) case Good(n) => n case BadSyntax => 0 case OutOfRange => MAX_UINT64
  }

  /** strconv.ParseInt(s, 10, 64); None is its error. */
  function ParseInt(s: string): (r: Option<int>) {
    if s == "" then None
    else
      var neg := s[0] == '-';
      match ScanUint(if neg || s[0] == '+' then s[1..] else s)
      case Good(n) =>
        var m: int := n;
        var v := if neg then -m else m;
        if -MAX_INT64 - 1 <= v <= MAX_INT64 then Some(v) else None
      case _ => None
  }

  // ------------------------------------------------------------ the loop's step

  predicate IsHeader(line: string) {
    var cut := Cut(line, '='); cut.Some? && cut.value.0 == "public_key"
  }

  /** What one key=value line does to the peer it belongs to; parsePrefix is netip.ParsePrefix. */
  function SetField(p: PeerStatus, key: string, val: string, parsePrefix: string -> Option<Prefix>): PeerStatus {
    if key == "endpoint" then p.(endpoint := val)
    else if key == "allowed_ip" then
      var prefix := parsePrefix(val);
      if prefix.Some? then p.(allowedIPs := p.allowedIPs + [prefix.value]) else p
    else if key == "tx_bytes" then p.(txBytes := UintValue(val))
    else if key == "rx_bytes" then p.(rxBytes := UintValue(val))
    else if key == "last_handshake_time_sec" then
      var secs := ParseInt(val);
      if secs.Some? && secs.value > 0 then p.(lastHandshake := secs) else p
    else p
  }

  function AbsorbLine(p: PeerStatus, line: string, parsePrefix: string -> Option<Prefix>): PeerStatus {
    var cut := Cut(line, '=');
    if cut.Some? then SetField(p, cut.value.0, cut.value.1, parsePrefix) else p
  }

  // ------------------------------------------------- block-structured reading

  /** The lines that follow each public_key line, up to the next one. */
  function Blocks(lines: seq<string>): seq<seq<string>> {
    if lines == [] then [] else AddLine(Blocks(lines[..|lines| - 1]), lines[|lines| - 1])
  }

  /** A public_key line starts a block, any other goes to the block it follows, if there is one. */
  function AddLine(blocks: seq<seq<string>>, line: string): seq<seq<string>> {
    if IsHeader(line) then blocks + [[]]
    else if blocks == [] then []
    else blocks[..|blocks| - 1] + [blocks[|blocks| - 1] + [line]]
  }

  /** The lines before the first public_key line. */
  function Leading(lines: seq<string>): seq<string> {
    if lines == [] || IsHeader(lines[0]) then [] else [lines[0]] + Leading(lines[1..])
  }

  /** The value of the last line with the given key. */
  function LastValue(block: seq<string>, key: string): Option<string> {
    if block == [] then None
    else
      var cut := Cut(block[|block| - 1], '=');
      if cut.Some? && cut.value.0 == key then Some(cut.value.1) else LastValue(block[..|block| - 1], key)
  }

  /** Every valid allowed_ip of a block, in order. */
  function Prefixes(block: seq<string>, parsePrefix: string -> Option<Prefix>): seq<Prefix> {
    if block == [] then []
    else
      var before, cut := Prefixes(block[..|block| - 1], parsePrefix), Cut(block[|block| - 1], '=');
      if cut.Some? && cut.value.0 == "allowed_ip" && parsePrefix(cut.value.1).Some?
      then before + [parsePrefix(cut.value.1).value] else before
  }

  /** The time on a line that reports a completed handshake: a valid, positive number of seconds. */
  function HandshakeOn(line: string): Option<int> {
    var cut := Cut(line, '=');
    if cut.Some? && cut.value.0 == "last_handshake_time_sec"
       && ParseInt(cut.value.1).Some? && ParseInt(cut.value.1).value > 0
    then ParseInt(cut.value.1) else None
  }

  function LastHandshake(block: seq<string>): Option<int> {
    if block == [] then None
    else
      var t := HandshakeOn(block[|block| - 1]);
      if t.Some? then t else LastHandshake(block[..|block| - 1])
  }

  /** A peer, read off its block field by field. */
  function BlockStatus(block: seq<string>, parsePrefix: string -> Option<Prefix>): PeerStatus {
    PeerStatus(LastValue(block, "endpoint").GetOr(""), Prefixes(block, parsePrefix), LastHandshake(block),
               UintValue(LastValue(block, "tx_bytes").GetOr("")), UintValue(LastValue(block, "rx_bytes").GetOr("")))
  }

  function StatusesOf(blocks: seq<seq<string>>, parsePrefix: string -> Option<Prefix>): (r: seq<PeerStatus>)
    ensures |r| == |blocks|
    ensures forall i :: 0 <= i < |blocks| ==> r[i] == BlockStatus(blocks[i], parsePrefix)
  {
    seq(|blocks|, i requires 0 <= i < |blocks| => BlockStatus(blocks[i], parsePrefix))
  }

  function Statuses(raw: string, parsePrefix: string -> Option<Prefix>): seq<PeerStatus> {
    StatusesOf(Blocks(Split(raw, '\n')), parsePrefix)
  }

  /** A block's reading absorbs a further line as the loop does. */
  lemma AbsorbIsReading(block: seq<string>, line: string, parsePrefix: string -> Option<Prefix>)
    ensures BlockStatus(block + [line], parsePrefix) == AbsorbLine(BlockStatus(block, parsePrefix), line, parsePrefix)
  {
    LastValueStep(block, line, "endpoint");
    LastValueStep(block, line, "tx_bytes");
    LastValueStep(block, line, "rx_bytes");
    OtherFieldsStep(block, line, parsePrefix);
  }

  lemma LastValueStep(block: seq<string>, line: string, key: string)
    ensures var cut := Cut(line, '=');
      LastValue(block + [line], key) ==
        if cut.Some? && cut.value.0 == key then Some(cut.value.1) else LastValue(block, key)
  {
    assert (block + [line])[..|block|] == block;
  }

  lemma OtherFieldsStep(block: seq<string>, line: string, parsePrefix: string -> Option<Prefix>)
    ensures LastHandshake(block + [line]) == if HandshakeOn(line).Some? then HandshakeOn(line) else LastHandshake(block)
    ensures var cut, before := Cut(line, '='), Prefixes(block, parsePrefix);
      Prefixes(block + [line], parsePrefix) ==
        if cut.Some? && cut.value.0 == "allowed_ip" && parsePrefix(cut.value.1).Some?
        then before + [parsePrefix(cut.value.1).value] else before
  {
    assert (block + [line])[..|block|] == block;
  }

  lemma BlocksStep(lines: seq<string>, line: string)
    ensures Blocks(lines + [line]) == AddLine(Blocks(lines), line)
  {
    assert (lines + [line])[..|lines|] == lines;
  }

  /** What the loop does with one line, to the peers and the last of them. */
  function PeersAfter(peers: seq<PeerStatus>, line: string, parsePrefix: string -> Option<Prefix>): seq<PeerStatus> {
    if IsHeader(line) then peers + [NO_STATUS]
    else if peers == [] then []
    else peers[|peers| - 1 := AbsorbLine(peers[|peers| - 1], line, parsePrefix)]
  }

  lemma ReplaceLast(blocks: seq<seq<string>>, block: seq<string>, parsePrefix: string -> Option<Prefix>)
    requires blocks != []
    ensures StatusesOf(blocks[..|blocks| - 1] + [block], parsePrefix)
         == StatusesOf(blocks, parsePrefix)[|blocks| - 1 := BlockStatus(block, parsePrefix)]
  {
  }

  lemma NewBlock(blocks: seq<seq<string>>, parsePrefix: string -> Option<Prefix>)
    ensures StatusesOf(blocks + [[]], parsePrefix) == StatusesOf(blocks, parsePrefix) + [NO_STATUS]
  {
    assert BlockStatus([], parsePrefix) == NO_STATUS;
  }

  lemma LineReadsBlocks(lines: seq<string>, line: string, parsePrefix: string -> Option<Prefix>)
    ensures StatusesOf(Blocks(lines + [line]), parsePrefix) ==
      PeersAfter(StatusesOf(Blocks(lines), parsePrefix), line, parsePrefix)
  {
    BlocksStep(lines, line);
    LineReadsBlock(Blocks(lines), line, parsePrefix);
  }

  lemma LineReadsBlock(before: seq<seq<string>>, line: string, parsePrefix: string -> Option<Prefix>)
    ensures StatusesOf(AddLine(before, line), parsePrefix) ==
      PeersAfter(StatusesOf(before, parsePrefix), line, parsePrefix)
  {
    if IsHeader(line) {
      NewBlock(before, parsePrefix);
    } else if before != [] {
      var last := before[|before| - 1];
      AbsorbIsReading(last, line, parsePrefix);
      ReplaceLast(before, last + [line], parsePrefix);
    }
  }

  lemma NextLine(lines: seq<string>, i: nat, parsePrefix: string -> Option<Prefix>)
    requires i < |lines|
    ensures StatusesOf(Blocks(lines[..i + 1]), parsePrefix) ==
      PeersAfter(StatusesOf(Blocks(lines[..i]), parsePrefix), lines[i], parsePrefix)
  {
    assert lines[..i + 1] == lines[..i] + [lines[i]];
    LineReadsBlocks(lines[..i], lines[i], parsePrefix);
  }

  /** parsePeerStatuses; cur indexes the peer the source's pointer points to, -1 is nil. */
  method ParsePeerStatuses(raw: string, parsePrefix: string -> Option<Prefix>) returns (peers: seq<PeerStatus>)
    ensures peers == Statuses(raw, parsePrefix)
  {
    var lines := Split(raw, '\n');
    var cur := -1;
    peers := [];
    for i := 0 to |lines|
      invariant peers == StatusesOf(Blocks(lines[..i]), parsePrefix)
      invariant cur == |peers| - 1
    {
      var line := lines[i];
      NextLine(lines, i, parsePrefix);
      var cut := Cut(line, '=');
      if cut.None? {
        continue;
      }
      var key, val := cut.value.0, cut.value.1;
      if key == "public_key" {
        peers := peers + [NO_STATUS];
        cur := |peers| - 1;
      } else if cur >= 0 {
        peers := peers[cur := SetField(peers[cur], key, val, parsePrefix)];
      }
    }
    assert lines[..|lines|] == lines;
  }

  // -------------------------------------------------------------- handshake gate

  predicate HasHandshake(peers: seq<PeerStatus>) {
    exists i :: 0 <= i < |peers| && peers[i].lastHandshake.Some?
  }

  /** Some peer's block of the status text holds a line with a completed handshake. */
  predicate HandshakeShown(raw: string) {
    var blocks := Blocks(Split(raw, '\n'));
    exists i, k :: 0 <= i < |blocks| && 0 <= k < |blocks[i]| && HandshakeOn(blocks[i][k]).Some?
  }

  lemma {:induction false} LastHandshakeSome(block: seq<string>)
    ensures LastHandshake(block).Some? <==> exists k :: 0 <= k < |block| && HandshakeOn(block[k]).Some?
  {
    if block != [] {
      var init := block[..|block| - 1];
      LastHandshakeSome(init);
      assert forall k :: 0 <= k < |init| ==> init[k] == block[k];
    }
  }

  lemma HandshakeMeaning(raw: string, parsePrefix: string -> Option<Prefix>)
    ensures HasHandshake(Statuses(raw, parsePrefix)) <==> HandshakeShown(raw)
  {
    var blocks, peers := Blocks(Split(raw, '\n')), Statuses(raw, parsePrefix);
    forall i | 0 <= i < |blocks|
      ensures peers[i].lastHandshake.Some? <==> exists k :: 0 <= k < |blocks[i]| && HandshakeOn(blocks[i][k]).Some?
    {
      LastHandshakeSome(blocks[i]);
    }
  }

  /** One answer of the device: its status text, or None for an error, and the time it came. */
  datatype Poll = Poll(raw: Option<string>, at: int)

  /** The device and the clock: any behaviour, by poll number and time. */
  datatype Device = Device(get: (nat, int) -> Poll, sleep: int -> int)

  const INTERVAL := 200_000_000

  /** Time does not go back, and a sleep lasts at least its 200ms. */
  ghost predicate Clocked(dev: Device) {
    && (forall i: nat, t: int :: dev.get(i, t).at >= t)
    && (forall t: int :: dev.sleep(t) >= t + INTERVAL)
  }

  /** When poll number i is made, and what it answers. */
  function PollTime(dev: Device, i: nat, start: int): int {
    if i == 0 then start else dev.sleep(dev.get(i - 1, PollTime(dev, i - 1, start)).at)
  }

  function PollAt(dev: Device, i: nat, start: int): Poll {
    dev.get(i, PollTime(dev, i, start))
  }

  predicate Shows(p: Poll) { p.raw.Some? && HandshakeShown(p.raw.value) }

  /** A poll the gate goes on after: no error, no handshake, before the deadline. */
  predicate KeepsWaiting(p: Poll, deadline: int) {
    p.raw.Some? && !Shows(p) && p.at <= deadline
  }

  /** The gate went on after each of the first n polls. */
  ghost predicate Waited(dev: Device, start: int, deadline: int, n: nat) {
    forall i :: 0 <= i < n ==> KeepsWaiting(PollAt(dev, i, start), deadline)
  }

  /** One of the first n polls showed a completed handshake. */
  ghost predicate ShownWithin(dev: Device, start: int, n: nat) {
    exists i :: 0 <= i < n && Shows(PollAt(dev, i, start))
  }

  lemma LastPollShows(dev: Device, start: int, deadline: int, n: nat)
    requires Waited(dev, start, deadline, n)
    ensures Shows(PollAt(dev, n, start)) <==> ShownWithin(dev, start, n + 1)
  {
  }

  datatype Gate = Up | TimedOut | QueryError

  /** The gate's result fits its last poll. */
  predicate Justified(r: Gate, p: Poll, deadline: int) {
    && (r.Up? <==> Shows(p)) && (r.QueryError? <==> p.raw.None?)
    && (r.TimedOut? ==> p.at > deadline)
  }

  /**
   waitForHandshake: it succeeds exactly if one of its polls showed a completed handshake,
   fails for lack of one only after the deadline, and polls at most timeout/200ms + 2 times.
   */
  method WaitForHandshake(dev: Device, timeout: int, start: int, parsePrefix: string -> Option<Prefix>)
    returns (r: Gate, polls: nat)
    requires Clocked(dev)
    ensures polls > 0
    ensures Waited(dev, start, start + timeout, polls - 1)
    ensures Justified(r, PollAt(dev, polls - 1, start), start + timeout)
    ensures r.Up? <==> ShownWithin(dev, start, polls)
    ensures polls <= (if timeout < 0 then 0 else timeout / 200_000_000) + 2
  {
    var deadline := start + timeout;
    var now := start;
    polls := 0;
    while true
      invariant now == PollTime(dev, polls, start)
      invariant Waited(dev, start, deadline, polls)
      invariant Paced(polls, now - start, timeout)
      decreases deadline - now
    {
      var verdict, at := PollOnce(dev, polls, now, deadline, parsePrefix);
      PollBound(polls, now - start, timeout);
      LastPollShows(dev, start, deadline, polls);
      if verdict.Some? {
        return verdict.value, polls + 1;
      }
      PaceKept(polls, now - start, dev.sleep(at) - start, timeout, at - start);
      now := dev.sleep(at);
      polls := polls + 1;
    }
  }

  function Verdict(p: Poll, deadline: int): (r: Option<Gate>)
    ensures r.None? <==> KeepsWaiting(p, deadline)
    ensures r.Some? ==> Justified(r.value, p, deadline)
  {
    if p.raw.None? then Some(QueryError)
    else if HandshakeShown(p.raw.value) then Some(Up)
    else if p.at > deadline then Some(TimedOut)
    else None
  }

  /** One turn of the gate's loop, up to its sleep. */
  method PollOnce(dev: Device, i: nat, now: int, deadline: int, parsePrefix: string -> Option<Prefix>)
    returns (verdict: Option<Gate>, at: int)
    ensures verdict == Verdict(dev.get(i, now), deadline) && at == dev.get(i, now).at
  {
    var poll := dev.get(i, now);
    at := poll.at;
    if poll.raw.None? {
      return Some(QueryError), at;
    }
    var shown := FindHandshake(poll.raw.value, parsePrefix);
    if shown {
      return Some(Up), at;
    }
    if at > deadline {
      return Some(TimedOut), at;
    }
    return None, at;
  }

  /** The gate's search: the first peer with a handshake ends it. */
  method AnyHandshake(peers: seq<PeerStatus>) returns (found: bool)
    ensures found <==> HasHandshake(peers)
  {
    for i := 0 to |peers|
      invariant forall k :: 0 <= k < i ==> peers[k].lastHandshake.None?
    {
      if peers[i].lastHandshake.Some? {
        return true;
      }
    }
    return false;
  }

  method FindHandshake(raw: string, parsePrefix: string -> Option<Prefix>) returns (found: bool)
    ensures found <==> HandshakeShown(raw)
  {
    var peers := ParsePeerStatuses(raw, parsePrefix);
    found := AnyHandshake(peers);
    HandshakeMeaning(raw, parsePrefix);
  }

  /** After that many polls, each followed by a sleep that began before the deadline, so much time has passed. */
  predicate Paced(polls: nat, passed: int, timeout: int) {
    passed >= polls * INTERVAL && (polls > 0 ==> (polls - 1) * INTERVAL <= timeout)
  }

  lemma PaceKept(polls: nat, passed: int, later: int, timeout: int, answered: int)
    requires Paced(polls, passed, timeout) && passed <= answered <= timeout && later >= answered + INTERVAL
    ensures Paced(polls + 1, later, timeout)
  {
  }

  lemma PollBound(polls: nat, passed: int, timeout: int)
    requires Paced(polls, passed, timeout)
    ensures polls + 1 <= (if timeout < 0 then 0 else timeout / INTERVAL) + 2
  {
  }
}
