/**
 Relaying one connection: peekHostname reads ahead to learn the hostname and gives back
 every byte it read; relayConn then runs two copy loops, one per direction, side by side.
 */
module Relay {
  import opened Integers
  import opened Text
  import opened Sni
  import opened HttpHost

  // ------------------------------------------------------------ peekHostname

  const PEEK_SIZE := 4096

  /** The read buffer once head has been read into it. */
  function Zeroed(head: seq<Byte>): (buf: seq<Byte>)
    requires |head| <= PEEK_SIZE
    ensures |buf| == PEEK_SIZE
  {
    head + seq(PEEK_SIZE - |head|, _ => 0)
  }

  /** The hostname sniffed from the first bytes of a connection, read into a zeroed buffer. */
  function Sniff(head: seq<Byte>): seq<Byte>
    requires |head| <= PEEK_SIZE
  {
    match SniOf(Slice(Zeroed(head), 0, |head|), false)
    case Some(name) => name
    case None => ParseHost(head).GetOr([])
  }

  /** A client connection: the bytes its peer has sent and nobody has read yet. */
  class Conn {
    var unread: seq<Byte>

    constructor (sent: seq<Byte>)
      ensures unread == sent
    {
      unread := sent;
    }

    /** net.Conn.Read under a deadline: how many bytes it returns is up to the network. */
    method Read(buf: array<Byte>) returns (n: nat)
      modifies this, buf
      ensures n <= buf.Length && n <= |old(unread)|
      ensures buf[..n] == old(unread)[..n] && unread == old(unread)[n..]
      ensures forall i :: n <= i < buf.Length ==> buf[i] == old(buf[i])
    {
      n :| 0 <= n <= buf.Length && n <= |unread|;
      for i := 0 to n
        invariant forall k :: 0 <= k < i ==> buf[k] == unread[k]
        invariant forall k :: i <= k < buf.Length ==> buf[k] == old(buf[k])
        invariant unread == old(unread)
        modifies buf
      {
        buf[i] := unread[i];
      }
      unread := unread[n..];
    }
  }

  /**
   peekHostname: replay is what the returned reader yields before it goes on reading the
   connection. No byte is lost, repeated or reordered, the name is the one sniffed from
   exactly the replayed bytes, and the copy loops start from exactly this split of the stream.
   */
  method PeekHostname(client: Conn) returns (replay: seq<Byte>, name: seq<Byte>)
    modifies client
    ensures replay + client.unread == old(client.unread)
    ensures |replay| <= 4096
    ensures name == if replay == [] then [] else Sniff(replay)
    ensures var up := Connected(old(client.unread), false, |replay|).up;
      up.replay == replay && Available(up) == client.unread
  {
    var buf := new Byte[PEEK_SIZE](_ => 0);
    var n := client.Read(buf);
    if n <= 0 {
      return [], [];
    }
    replay := buf[..n];
    assert buf[..] == Zeroed(replay);
    name := SniffName(buf[..], n);
  }

  /** peekHostname's choice: the SNI if there is one, else the Host header, else no name. */
  method SniffName(buf: seq<Byte>, n: nat) returns (name: seq<Byte>)
    requires n <= PEEK_SIZE && |buf| == PEEK_SIZE && buf == Zeroed(buf[..n])
    ensures name == Sniff(buf[..n])
  {
    var sni := ParseSni(Slice(buf, 0, n));
    if sni.Some? {
      return sni.value;
    }
    var host, ok := ParseHttpHost(buf[..n]);
    return if ok then host else [];
  }

  // -------------------------------------------------------------- copy loops

  /** Why a copy loop stopped: its source ended, or reading or writing failed. */
  datatype Status = Copying | SawEof | ReadFailed | WriteFailed

  /**
   One direction of the relay. source is every byte its producer has sent, the first taken of
   them read by the relay; replay is what is left of the peeked bytes, pending what the loop
   has read and not yet written; delivered is what its sink got, count what the loop counted.
   */
  datatype Pipe = Pipe(source: seq<Byte>, sourceEnded: bool, taken: nat, replay: seq<Byte>, pending: seq<Byte>,
                       delivered: seq<Byte>, count: nat, status: Status, sinkHalfClosed: bool)

  /** The relay's end of a TCP connection: the two halves close one by one. */
  datatype Socket = Socket(canRead: bool, canWrite: bool)

  /** What can happen in one direction. */
  datatype Event =
    | Produce(bytes: seq<Byte>)
    | EndSource
    | ReadSome(k: nat)
    | WriteSome(k: nat, ok: bool)
    | ReadEnd
    | ReadError
    | HalfClose

  /** The bytes the producer has sent and the relay has not read. */
  function Available(p: Pipe): seq<Byte>
    requires p.taken <= |p.source|
  {
    p.source[p.taken..]
  }

  /** The peeked bytes are read from memory, all others from the source's socket; a closed half only fails. */
  predicate Possible(p: Pipe, e: Event, source: Socket, sink: Socket) {
    match e
    case Produce(bytes) => !p.sourceEnded
    case EndSource => true
    case ReadSome(k) => p.status.Copying? && p.pending == [] && 0 < k && p.taken <= |p.source|
                        && (if p.replay != [] then k <= |p.replay| else source.canRead && k <= |Available(p)|)
    case WriteSome(k, ok) => p.status.Copying? && k <= |p.pending| && p.pending != []
                             && (if ok then 0 < k && sink.canWrite else k == 0 || sink.canWrite)
    case ReadEnd => p.status.Copying? && p.pending == [] && p.replay == [] && p.sourceEnded && p.taken == |p.source|
                    && source.canRead
    case ReadError => p.status.Copying? && p.pending == []
    case HalfClose => !p.status.Copying? && !p.sinkHalfClosed
  }

  /** The reader yields the peeked bytes first; a write may deliver part of its bytes and fail. */
  function After(p: Pipe, e: Event): Pipe
    requires e.ReadSome? ==> e.k <= (if p.replay != [] then |p.replay| else |p.source| - p.taken)
    requires e.WriteSome? ==> e.k <= |p.pending|
  {
    match e
    case Produce(bytes) => p.(source := p.source + bytes)
    case EndSource => p.(sourceEnded := true)
    case ReadSome(k) =>
      if p.replay != [] then p.(pending := p.replay[..k], replay := p.replay[k..])
      else p.(pending := p.source[p.taken..p.taken + k], taken := p.taken + k)
    case WriteSome(k, ok) =>
      var sent := p.(delivered := p.delivered + p.pending[..k], count := p.count + k, pending := p.pending[k..]);
      if ok then sent else sent.(status := WriteFailed)
    case ReadEnd => p.(status := SawEof)
    case ReadError => p.(status := ReadFailed)
    case HalfClose => p.(sinkHalfClosed := true)
  }

  /** CloseWrite, the only thing a copy loop does to a socket. */
  function SinkAfter(sink: Socket, e: Event): Socket {
    if e.HalfClose? then sink.(canWrite := false) else sink
  }

  datatype Direction = Up | Down

  function Other(d: Direction): Direction { if d.Up? then Down else Up }

  /** Both directions of a connection, client to upstream and back, over the two sockets they share. */
  datatype Relayed = Relayed(up: Pipe, down: Pipe, client: Socket, upstream: Socket)

  function Get(r: Relayed, d: Direction): Pipe { if d.Up? then r.up else r.down }

  function Source(r: Relayed, d: Direction): Socket { if d.Up? then r.client else r.upstream }

  function Sink(r: Relayed, d: Direction): Socket { Source(r, Other(d)) }

  function Set(r: Relayed, d: Direction, p: Pipe, sink: Socket): Relayed {
    if d.Up? then r.(up := p, upstream := sink) else r.(down := p, client := sink)
  }

  /** A step of one direction, or relayConn's return, which closes both connections. */
  datatype Step = In(d: Direction, e: Event) | Return

  predicate CanStep(r: Relayed, s: Step) {
    match s
    case In(d, e) => Possible(Get(r, d), e, Source(r, d), Sink(r, d))
    case Return => r.up.sinkHalfClosed && r.down.sinkHalfClosed
  }

  function Next(r: Relayed, s: Step): Relayed
    requires CanStep(r, s)
  {
    match s
    case In(d, e) => Set(r, d, After(Get(r, d), e), SinkAfter(Sink(r, d), e))
    case Return => r.(client := Socket(false, false), upstream := Socket(false, false))
  }

  /** Any interleaving of the two directions' steps. */
  predicate CanRun(r: Relayed, steps: seq<Step>)
    decreases |steps|
  {
    steps == [] || (CanStep(r, steps[0]) && CanRun(Next(r, steps[0]), steps[1..]))
  }

  function Run(r: Relayed, steps: seq<Step>): Relayed
    requires CanRun(r, steps)
    decreases |steps|
  {
    if steps == [] then r else Run(Next(r, steps[0]), steps[1..])
  }

  /** A connection whose client has sent some bytes, peeked of them already read ahead. */
  function Connected(sent: seq<Byte>, ended: bool, peeked: nat): Relayed
    requires peeked <= |sent|
  {
    Relayed(Pipe(sent, ended, peeked, sent[..peeked], [], [], 0, Copying, false),
            Pipe([], false, 0, [], [], [], 0, Copying, false), Socket(true, true), Socket(true, true))
  }

  // ------------------------------------------------------------- conservation

  /** Every byte taken from the source is delivered, in flight, lost to a failed write, or still to be replayed. */
  ghost predicate Conserves(p: Pipe) {
    && p.taken <= |p.source|
    && p.delivered + p.pending + p.replay == p.source[..p.taken]
    && p.count == |p.delivered|
    && (p.sinkHalfClosed ==> !p.status.Copying?)
    && (p.status.SawEof? ==> p.sourceEnded && p.pending == [] && p.replay == [] && p.taken == |p.source|)
  }

  lemma EventConserves(p: Pipe, e: Event, source: Socket, sink: Socket)
    requires Conserves(p) && Possible(p, e, source, sink)
    ensures Conserves(After(p, e))
  {
    match e {
      case Produce(bytes) =>
        assert (p.source + bytes)[..p.taken] == p.source[..p.taken];
      case ReadSome(k) =>
        if p.replay != [] {
          Regroup(p.delivered, [], p.replay, k);
        } else {
          assert p.source[..p.taken + k] == p.source[..p.taken] + p.source[p.taken..p.taken + k];
          Regroup(p.delivered, [], p.source[p.taken..p.taken + k], k);
        }
      case WriteSome(k, ok) => Regroup(p.delivered, p.pending, p.replay, k);
      case _ =>
    }
  }

  lemma Regroup<T>(a: seq<T>, b: seq<T>, c: seq<T>, k: nat)
    ensures a + [] + c == a + c && a + c + [] == a + c
    ensures k <= |c| ==> a + c[..k] + c[k..] == a + c
    ensures k <= |b| ==> (a + b[..k]) + b[k..] + c == a + b + c
  {
    if k <= |c| { assert c == c[..k] + c[k..]; }
    if k <= |b| { assert b == b[..k] + b[k..]; }
  }

  /**
   Which halves are open: a socket's write half is closed exactly once the direction into it has
   half-closed, and both read halves stay open until both directions have, whoever ended first.
   */
  ghost predicate HalvesOpen(r: Relayed) {
    && (r.upstream.canWrite <==> !r.up.sinkHalfClosed) && (r.client.canWrite <==> !r.down.sinkHalfClosed)
    && (!(r.up.sinkHalfClosed && r.down.sinkHalfClosed) ==> r.client.canRead && r.upstream.canRead)
  }

  ghost predicate Sound(r: Relayed) {
    Conserves(r.up) && Conserves(r.down) && HalvesOpen(r)
  }

  lemma StepIsSound(r: Relayed, s: Step)
    requires Sound(r) && CanStep(r, s)
    ensures Sound(Next(r, s))
  {
    if s.In? {
      EventConserves(Get(r, s.d), s.e, Source(r, s.d), Sink(r, s.d));
    }
  }

  lemma {:induction false} RunIsSound(r: Relayed, steps: seq<Step>)
    requires Sound(r) && CanRun(r, steps)
    ensures Sound(Run(r, steps))
    decreases |steps|
  {
    if steps != [] {
      StepIsSound(r, steps[0]);
      RunIsSound(Next(r, steps[0]), steps[1..]);
    }
  }

  lemma ConnectedIsSound(sent: seq<Byte>, ended: bool, peeked: nat)
    requires peeked <= |sent|
    ensures Sound(Connected(sent, ended, peeked))
  {
  }

  /** What one side has received is a prefix of what the other side sent, and the log's counter is its length. */
  ghost predicate DeliversPrefix(p: Pipe) {
    && p.delivered <= p.source && p.count == |p.delivered|
    && (p.status.SawEof? ==> p.delivered == p.source)
  }

  /**
   Stream conservation, at every point of every interleaving: each side has received a prefix
   of what the other side sent, the peeked bytes once and first; sent and recv are the
   lengths delivered; and a direction that ended by its source's EOF has delivered all of it.
   */
  lemma StreamsConserved(sent: seq<Byte>, ended: bool, peeked: nat, steps: seq<Step>)
    requires peeked <= |sent| && CanRun(Connected(sent, ended, peeked), steps)
    ensures var r := Run(Connected(sent, ended, peeked), steps);
      DeliversPrefix(r.up) && DeliversPrefix(r.down) && sent <= r.up.source
  {
    var r0 := Connected(sent, ended, peeked);
    ConnectedIsSound(sent, ended, peeked);
    RunIsSound(r0, steps);
    SourcesGrow(r0, steps);
    var r := Run(r0, steps);
    PrefixOfTaken(r.up);
    PrefixOfTaken(r.down);
  }

  lemma PrefixOfTaken(p: Pipe)
    requires Conserves(p)
    ensures DeliversPrefix(p)
  {
    var read := p.delivered + p.pending + p.replay;
    assert p.delivered == read[..|p.delivered|] == p.source[..p.taken][..|p.delivered|] == p.source[..|p.delivered|];
  }

  lemma {:induction false} SourcesGrow(r: Relayed, steps: seq<Step>)
    requires CanRun(r, steps)
    ensures r.up.source <= Run(r, steps).up.source && r.down.source <= Run(r, steps).down.source
    decreases |steps|
  {
    if steps != [] {
      SourcesGrow(Next(r, steps[0]), steps[1..]);
    }
  }

  // --------------------------------------------------------------- half-close

  /** Every half that a direction needs is open as long as it copies, whatever the other one has closed. */
  lemma CopyingIsOpen(r: Relayed, d: Direction)
    requires Sound(r) && Get(r, d).status.Copying?
    ensures Source(r, d).canRead && Sink(r, d).canWrite
  {
  }

  /** The next step that takes a copying direction towards its source's end. */
  function Onward(p: Pipe): Event
    requires p.taken <= |p.source|
  {
    if !p.sourceEnded then EndSource
    else if p.pending != [] then WriteSome(|p.pending|, true)
    else if p.replay != [] then ReadSome(|p.replay|)
    else if Available(p) != [] then ReadSome(|Available(p)|)
    else ReadEnd
  }

  function Distance(p: Pipe): nat {
    (if p.sourceEnded then 0 else 1) + |p.pending| + 2 * |p.replay|
    + (if p.taken <= |p.source| then 2 * |Available(p)| else 0)
  }

  lemma OnwardStep(r: Relayed, d: Direction)
    requires Sound(r) && Get(r, d).status.Copying?
    ensures var p, s := Get(r, d), In(d, Onward(Get(r, d)));
      && CanStep(r, s) && Sound(Next(r, s))
      && Get(Next(r, s), Other(d)) == Get(r, Other(d)) && Get(Next(r, s), d).source == p.source
      && (if s.e.ReadEnd? then Get(Next(r, s), d).status.SawEof?
          else Get(Next(r, s), d).status.Copying? && Distance(Get(Next(r, s), d)) < Distance(p))
  {
    CopyingIsOpen(r, d);
    StepIsSound(r, In(d, Onward(Get(r, d))));
  }

  lemma FirstStep(r: Relayed, s: Step, rest: seq<Step>)
    requires CanStep(r, s) && CanRun(Next(r, s), rest)
    ensures CanRun(r, [s] + rest) && Run(r, [s] + rest) == Run(Next(r, s), rest)
  {
    assert ([s] + rest)[1..] == rest;
  }

  /**
   A half-close leaves the other direction whole: in every sound state a direction that is still
   copying can, by events of its own alone, read its source to the end, deliver all of it and
   half-close its sink, even if the opposite direction has half-closed or failed long ago. The
   first of the events, unless it has happened already, is the end of the source, the sender's
   part; all the others are the copy loop's.
   */
  lemma {:induction false} CanFinish(r: Relayed, d: Direction) returns (steps: seq<Step>)
    requires Sound(r) && Get(r, d).status.Copying?
    ensures CanRun(r, steps) && forall i :: 0 <= i < |steps| ==> steps[i].In? && steps[i].d == d
    ensures var p := Get(Run(r, steps), d);
      p.status.SawEof? && p.delivered == p.source == Get(r, d).source && p.sinkHalfClosed
    ensures Get(Run(r, steps), Other(d)) == Get(r, Other(d))
    decreases Distance(Get(r, d))
  {
    var s := In(d, Onward(Get(r, d)));
    var next := Next(r, s);
    OnwardStep(r, d);
    var rest;
    if s.e.ReadEnd? {
      rest := [In(d, HalfClose)];
      FirstStep(next, In(d, HalfClose), []);
      assert rest == [In(d, HalfClose)] + [];
      PrefixOfTaken(Get(next, d));
    } else {
      rest := CanFinish(next, d);
    }
    FirstStep(r, s, rest);
    steps := [s] + rest;
  }

  /** At any point of any run, after a half-close by either direction. */
  lemma HalfCloseLeavesOther(sent: seq<Byte>, ended: bool, peeked: nat, steps: seq<Step>, d: Direction)
    returns (more: seq<Step>)
    requires peeked <= |sent| && CanRun(Connected(sent, ended, peeked), steps)
    requires var r := Run(Connected(sent, ended, peeked), steps);
      Get(r, Other(d)).sinkHalfClosed && Get(r, d).status.Copying?
    ensures var r := Run(Connected(sent, ended, peeked), steps);
      && HalvesOpen(r) && !Source(r, d).canWrite && Source(r, d).canRead && Sink(r, d).canWrite
      && CanRun(r, more) && Get(Run(r, more), d).status.SawEof? && Get(Run(r, more), d).delivered == Get(r, d).source
  {
    ConnectedIsSound(sent, ended, peeked);
    RunIsSound(Connected(sent, ended, peeked), steps);
    var r := Run(Connected(sent, ended, peeked), steps);
    assert Sink(r, Other(d)) == Source(r, d);
    CopyingIsOpen(r, d);
    more := CanFinish(r, d);
  }

  // ------------------------------------------------------------- independence

  /** The steps of one direction, in order. */
  function Only(steps: seq<Step>, d: Direction): seq<Step> {
    if steps == [] then [] else (if steps[0].In? && steps[0].d == d then [steps[0]] else []) + Only(steps[1..], d)
  }

  /** r and r' agree on a direction: its pipe, and the halves it still uses. */
  predicate Alike(r: Relayed, r': Relayed, d: Direction) {
    && Get(r, d) == Get(r', d)
    && (Get(r, d).status.Copying? ==>
          Source(r, d).canRead == Source(r', d).canRead && Sink(r, d).canWrite == Sink(r', d).canWrite)
  }

  lemma OwnStepAlike(r: Relayed, r': Relayed, s: Step, d: Direction)
    requires Alike(r, r', d) && CanStep(r, s) && s.In? && s.d == d
    ensures CanStep(r', s) && Alike(Next(r, s), Next(r', s), d)
  {
  }

  lemma OtherStepAlike(r: Relayed, r': Relayed, s: Step, d: Direction)
    requires Sound(r) && Alike(r, r', d) && CanStep(r, s) && (s.Return? || s.d != d)
    ensures Alike(Next(r, s), r', d)
  {
  }

  /**
   The directions do not disturb each other, though they share both sockets: what a run does to
   one of them, the other's EOF, failures and half-close included, is what that direction's own
   steps do alone.
   */
  lemma {:induction false} DirectionsIndependent(r: Relayed, r': Relayed, steps: seq<Step>, d: Direction)
    requires Sound(r) && Alike(r, r', d) && CanRun(r, steps)
    ensures CanRun(r', Only(steps, d)) && Get(Run(r', Only(steps, d)), d) == Get(Run(r, steps), d)
    decreases |steps|
  {
    if steps != [] {
      var s, rest := steps[0], steps[1..];
      StepIsSound(r, s);
      if s.In? && s.d == d {
        OwnStepAlike(r, r', s, d);
        DirectionsIndependent(Next(r, s), Next(r', s), rest, d);
        FirstStep(r', s, Only(rest, d));
      } else {
        OtherStepAlike(r, r', s, d);
        DirectionsIndependent(Next(r, s), r', rest, d);
        assert Only(steps, d) == Only(rest, d);
      }
    }
  }
}
