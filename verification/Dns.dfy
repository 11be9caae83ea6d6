/**
 The DNS side of the resolver: what one lookup answers (lookup), how it retries
 over lossy UDP (queryDNSRetry), which records of a reply it keeps (queryDNS),
 and how long all of that can take (budget).
 */
module Dns {
  import opened Text
  import opened Addresses
  import opened Integers

  // ---------------------------------------------------------------- replies

  const SECOND := 1_000_000_000
  const DNS_ATTEMPTS := 3

  datatype Qtype = TypeA | TypeAAAA

  /** The records of a reply's answer section, with their wire TTL in seconds. */
  datatype Resource = A(ip4: U32, seconds: U32) | AAAA(ip6: U128, seconds: U32) | Other

  /** ttl is in nanoseconds. */
  datatype Answer = Answer(ip: Addr, ttl: int)

  datatype Reply = Answers(answers: seq<Answer>) | QueryFailed

  predicate IsAddress(r: Resource) { !r.Other? }

  function ToAnswer(r: Resource): Answer
    requires IsAddress(r)
  {
    if r.A? then Answer(V4(r.ip4), r.seconds * SECOND) else Answer(V6(r.ip6), r.seconds * SECOND)
  }

  /** The address records of a reply, in order. */
  function AddressRecords(rs: seq<Resource>): seq<Answer> {
    if rs == [] then []
    else
      var rest := AddressRecords(rs[..|rs| - 1]);
      var r := rs[|rs| - 1];
      if IsAddress(r) then rest + [ToAnswer(r)] else rest
  }

  method CollectAnswers(rs: seq<Resource>) returns (answers: seq<Answer>)
    ensures answers == AddressRecords(rs)
  {
    answers := [];
    for i := 0 to |rs|
      invariant answers == AddressRecords(rs[..i])
    {
      assert rs[..i + 1][..i] == rs[..i];
      match rs[i] {
        case A(ip, seconds) => answers := answers + [Answer(V4(ip), seconds * SECOND)];
        case AAAA(ip, seconds) => answers := answers + [Answer(V6(ip), seconds * SECOND)];
        case Other =>
      }
    }
    assert rs[..|rs|] == rs;
  }

  /** Exactly the address records count, one by one and in order, with their TTL in nanoseconds. */
  lemma AddressRecordsExact(ip4: U32, ip6: U128, seconds: U32)
    ensures AddressRecords([]) == [] && AddressRecords([Other]) == []
    ensures AddressRecords([A(ip4, seconds)]) == [Answer(V4(ip4), seconds * 1_000_000_000)]
    ensures AddressRecords([AAAA(ip6, seconds)]) == [Answer(V6(ip6), seconds * 1_000_000_000)]
  {
    assert [A(ip4, seconds)][..0] == [] && [AAAA(ip6, seconds)][..0] == [] && [Other][..0] == [];
  }

  lemma {:induction false} AddressRecordsAppend(a: seq<Resource>, b: seq<Resource>)
    ensures AddressRecords(a + b) == AddressRecords(a) + AddressRecords(b)
    decreases |b|
  {
    if b == [] {
      assert a + b == a;
    } else {
      var n := |b| - 1;
      AddressRecordsAppend(a, b[..n]);
      assert (a + b)[..|a + b| - 1] == a + b[..n];
    }
  }

  /** Every answer comes from an address record, and no wire TTL overflows a Duration. */
  lemma {:induction false} AnswersFitDuration(rs: seq<Resource>, i: nat)
    requires i < |AddressRecords(rs)|
    ensures var a := AddressRecords(rs)[i];
      && (exists k :: 0 <= k < |rs| && IsAddress(rs[k]) && a == ToAnswer(rs[k]))
      && 0 <= a.ttl <= MAX_INT64
  {
    var n := |rs| - 1;
    if IsAddress(rs[n]) && i == |AddressRecords(rs)| - 1 {
      assert AddressRecords(rs)[i] == ToAnswer(rs[n]);
    } else {
      AnswersFitDuration(rs[..n], i);
      var k :| 0 <= k < n && IsAddress(rs[..n][k]) && AddressRecords(rs)[i] == ToAnswer(rs[..n][k]);
      assert rs[k] == rs[..n][k];
    }
  }

  /** The reply's first address record is the one at k. */
  predicate FirstAddressAt(rs: seq<Resource>, k: nat) {
    k < |rs| && IsAddress(rs[k]) && forall i :: 0 <= i < k ==> !IsAddress(rs[i])
  }

  /**
   The answer lookup uses, answers[0], is the first address record of the reply
   whatever its type: queryDNS does not compare it with the type it asked for.
   */
  lemma {:induction false} FirstAnswer(rs: seq<Resource>, k: nat)
    requires FirstAddressAt(rs, k)
    ensures AddressRecords(rs) != [] && AddressRecords(rs)[0] == ToAnswer(rs[k])
  {
    var n := |rs| - 1;
    if k < n {
      FirstAnswer(rs[..n], k);
    } else {
      NoAddress(rs[..n]);
    }
  }

  lemma {:induction false} SomeFirstAddress(rs: seq<Resource>) returns (k: nat)
    requires AddressRecords(rs) != []
    ensures FirstAddressAt(rs, k)
  {
    var init := rs[..|rs| - 1];
    if AddressRecords(init) != [] {
      k := SomeFirstAddress(init);
      assert forall i :: 0 <= i <= k ==> rs[i] == init[i];
    } else {
      k := |rs| - 1;
      forall i | 0 <= i < k ensures !IsAddress(rs[i]) {
        if IsAddress(init[i]) {
          AddressIsAnswer(init, i);
        }
      }
    }
  }

  lemma {:induction false} AddressIsAnswer(rs: seq<Resource>, i: nat)
    requires i < |rs| && IsAddress(rs[i])
    ensures AddressRecords(rs) != []
  {
    if i < |rs| - 1 {
      AddressIsAnswer(rs[..|rs| - 1], i);
    }
  }

  lemma {:induction false} NoAddress(rs: seq<Resource>)
    requires forall i :: 0 <= i < |rs| ==> !IsAddress(rs[i])
    ensures AddressRecords(rs) == []
  {
    if rs != [] {
      NoAddress(rs[..|rs| - 1]);
    }
  }

  // ------------------------------------------------------- what a lookup answers

  datatype Config = Config(servers: seq<string>, timeout: int, minTTL: int, maxTTL: int, ipv4Only: bool)

  datatype LookupError = NoServers | QueryError | NoRecord | LoopbackAnswer

  datatype Outcome = Resolved(ip: Addr, ttl: int) | Failed(error: LookupError)

  function Clamp(ttl: int, lo: int, hi: int): int {
    var raised := if ttl < lo then lo else ttl;
    if raised > hi then hi else raised
  }

  /** The lookup's outcome, given the A query's reply and the AAAA query's, if it came to that. */
  function Decide(cfg: Config, a: Reply, aaaa: Reply): Outcome {
    if cfg.servers == [] then Failed(NoServers)
    else
      var last := if a == Answers([]) && !cfg.ipv4Only then aaaa else a;
      match last
      case QueryFailed => Failed(QueryError)
      case Answers(answers) =>
        if answers == [] then Failed(NoRecord)
        else if IsLoopback(answers[0].ip) then Failed(LoopbackAnswer)
        else Resolved(answers[0].ip, Clamp(answers[0].ttl, cfg.minTTL, cfg.maxTTL))
  }

  /** A reply that carries an address, and the first one it carries. */
  predicate Carries(r: Reply, first: Answer) {
    r.Answers? && r.answers != [] && r.answers[0] == first
  }

  /**
   Every outcome, and the only replies it comes from. ip and ttl say which success: the address
   of the A reply or, if that reply is empty and IPv6 allowed, of the AAAA reply.
   */
  lemma OutcomeIff(cfg: Config, a: Reply, aaaa: Reply, first: Answer)
    ensures var o, next := Decide(cfg, a, aaaa), a == Answers([]) && !cfg.ipv4Only;
      && (o == Failed(NoServers) <==> |cfg.servers| == 0)
      && (o == Failed(QueryError) <==> |cfg.servers| > 0 && (a == QueryFailed || (next && aaaa == QueryFailed)))
      && (o == Failed(NoRecord) <==> |cfg.servers| > 0 && a == Answers([]) && (cfg.ipv4Only || aaaa == Answers([])))
      && (Carries(a, first) || (next && Carries(aaaa, first)) ==>
            |cfg.servers| > 0 ==>
              if IsLoopback(first.ip) then o == Failed(LoopbackAnswer) else o.Resolved? && o.ip == first.ip)
    ensures var o := Decide(cfg, a, aaaa); o.Resolved? ==>
      && |cfg.servers| > 0 && !IsLoopback(o.ip)
      && exists r: Answer :: r.ip == o.ip
           && (Carries(a, r) || (a == Answers([]) && !cfg.ipv4Only && Carries(aaaa, r)))
  {
    var o := Decide(cfg, a, aaaa);
    if o.Resolved? {
      var r := if a == Answers([]) then aaaa.answers[0] else a.answers[0];
      assert r.ip == o.ip && (Carries(a, r) || Carries(aaaa, r));
    }
  }

  /** What every outcome of a lookup guarantees to the cache. */
  ghost predicate Cacheable(cfg: Config, o: Outcome) {
    o.Resolved? ==> !IsLoopback(o.ip) && cfg.minTTL <= o.ttl <= cfg.maxTTL
  }

  lemma OutcomesAreCacheable(cfg: Config, a: Reply, aaaa: Reply)
    requires cfg.minTTL <= cfg.maxTTL
    ensures Cacheable(cfg, Decide(cfg, a, aaaa))
  {
  }

  /** o is what the record makes of the lookup: its address, for its own TTL or the nearest allowed one. */
  ghost predicate DecidedBy(cfg: Config, o: Outcome, record: Answer) {
    if IsLoopback(record.ip) then o == Failed(LoopbackAnswer)
    else
      && o.Resolved? && o.ip == record.ip && cfg.minTTL <= o.ttl <= cfg.maxTTL
      && forall other: int :: cfg.minTTL <= other <= cfg.maxTTL ==>
           Distance(o.ttl, record.ttl) <= Distance(other, record.ttl)
  }

  function Distance(a: int, b: int): int { if a < b then b - a else a - b }

  /**
   Which record decides: the first address record of the A query's reply or, if that has none
   and IPv6 is allowed, of the AAAA query's. A failed A query is not followed by another one.
   */
  lemma FirstRecordDecides(cfg: Config, a: seq<Resource>, aaaa: seq<Resource>, k: nat)
    requires cfg.servers != [] && cfg.minTTL <= cfg.maxTTL
    ensures FirstAddressAt(a, k) ==>
      DecidedBy(cfg, Decide(cfg, Answers(AddressRecords(a)), Answers(AddressRecords(aaaa))), ToAnswer(a[k]))
    ensures FirstAddressAt(aaaa, k) && (forall i :: 0 <= i < |a| ==> !IsAddress(a[i])) ==>
      var o := Decide(cfg, Answers(AddressRecords(a)), Answers(AddressRecords(aaaa)));
      if cfg.ipv4Only then o == Failed(NoRecord) else DecidedBy(cfg, o, ToAnswer(aaaa[k]))
    ensures Decide(cfg, QueryFailed, Answers(AddressRecords(aaaa))) == Failed(QueryError)
  {
    if FirstAddressAt(a, k) {
      FirstAnswer(a, k);
    }
    if forall i :: 0 <= i < |a| ==> !IsAddress(a[i]) {
      NoAddress(a);
    }
    if FirstAddressAt(aaaa, k) {
      FirstAnswer(aaaa, k);
    }
  }

  /** -ipv4-only does not by itself force an IPv4 answer: the A query's reply may carry an AAAA record. */
  lemma Ipv4OnlyNeedsTypedReplies()
    ensures exists cfg: Config, rs: seq<Resource> ::
      cfg.ipv4Only && cfg.minTTL <= cfg.maxTTL
      && Decide(cfg, Answers(AddressRecords(rs)), QueryFailed) == Resolved(V6(2), cfg.minTTL)
  {
    var cfg := Config(["10.0.0.1"], 1, 5, 10, true);
    var rs := [AAAA(2, 0)];
    FirstAnswer(rs, 0);
    assert Decide(cfg, Answers(AddressRecords(rs)), QueryFailed) == Resolved(V6(2), cfg.minTTL);
  }

  /** The address a lookup under -ipv4-only takes from its A query's reply is an IPv6 one. */
  predicate YieldsIpv6(a: Reply) {
    a.Answers? && a.answers != [] && !IsIpv4(a.answers[0].ip) && !IsLoopback(a.answers[0].ip)
  }

  lemma Ipv6OutcomeIff(cfg: Config, a: Reply, aaaa: Reply)
    requires cfg.ipv4Only && cfg.servers != []
    ensures var o := Decide(cfg, a, aaaa); o.Resolved? && !IsIpv4(o.ip) <==> YieldsIpv6(a)
  {
  }

  /**
   When -ipv4-only fails: an IPv6 address comes out of a lookup if and only if the first address
   record of the A query's reply, whatever follows it, is an AAAA record of an address that is
   neither a loopback nor an IPv4-mapped one.
   */
  lemma Ipv4OnlyFailsIff(cfg: Config, rs: seq<Resource>, aaaa: Reply)
    requires cfg.ipv4Only && cfg.servers != []
    ensures var o := Decide(cfg, Answers(AddressRecords(rs)), aaaa);
      o.Resolved? && !IsIpv4(o.ip) <==>
      exists k: nat :: FirstAddressAt(rs, k) && !IsIpv4(ToAnswer(rs[k]).ip) && !IsLoopback(ToAnswer(rs[k]).ip)
  {
    Ipv6OutcomeIff(cfg, Answers(AddressRecords(rs)), aaaa);
    if AddressRecords(rs) != [] {
      var k := SomeFirstAddress(rs);
      FirstAnswer(rs, k);
    }
    forall k: nat | FirstAddressAt(rs, k) ensures AddressRecords(rs) != [] && AddressRecords(rs)[0] == ToAnswer(rs[k]) {
      FirstAnswer(rs, k);
    }
  }

  // ------------------------------------------------------------------ retrying

  /** One DNS query, to the given of the servers. */
  datatype Query = Query(name: string, qtype: Qtype, server: nat, attempt: nat, now: int)

  /** A finished network operation: when it returned, and with what. */
  datatype Dialed = Dialed(ok: bool, at: int)

  /** records None is a failure to send, to read, or to make sense of the response. */
  datatype Talked = Talked(records: Option<seq<Resource>>, at: int)

  /** The network: any behaviour, as a function of the query and of the times it is used at. */
  datatype Network = Network(dial: Query -> Dialed, talk: (Query, int, int) -> Talked)

  /** One call of queryDNS; deadline is what the socket's deadline was set to. */
  datatype Try = Try(server: nat, began: int, dialed: int, deadline: int, ended: int, reply: Reply)

  function Min(a: int, b: int): int { if b < a then b else a }

  function QueryDns(net: Network, q: Query, timeout: int, ctxDeadline: int): Try {
    var d := net.dial(q);
    if !d.ok then Try(q.server, q.now, d.at, d.at, d.at, QueryFailed)
    else
      var deadline := Min(d.at + timeout, ctxDeadline);
      var t := net.talk(q, d.at, deadline);
      var reply := if t.records.Some? then Answers(AddressRecords(t.records.value)) else QueryFailed;
      Try(q.server, q.now, d.at, deadline, t.at, reply)
  }

  /** The records the network answers a query with, given how long it may take. */
  function Heard(net: Network, q: Query, timeout: int, ctxDeadline: int): Option<seq<Resource>> {
    var d := net.dial(q);
    if !d.ok then None
    else if d.at + timeout <= ctxDeadline then net.talk(q, d.at, d.at + timeout).records
    else net.talk(q, d.at, ctxDeadline).records
  }

  /** A try is what the network made of its query: no answer is lost, invented or changed. */
  ghost predicate Honest(net: Network, q: Query, timeout: int, ctxDeadline: int, t: Try) {
    && t.server == q.server && t.began == q.now && t.dialed == net.dial(q).at
    && (if net.dial(q).ok
        then t.deadline == Min(t.dialed + timeout, ctxDeadline) && t.ended == net.talk(q, t.dialed, t.deadline).at
        else t.ended == t.dialed)
    && match Heard(net, q, timeout, ctxDeadline)
       case None => t.reply == QueryFailed
       case Some(records) => t.reply == Answers(AddressRecords(records))
  }

  /** queryDNS */
  method SendQuery(net: Network, q: Query, timeout: int, ctxDeadline: int) returns (t: Try)
    ensures t == QueryDns(net, q, timeout, ctxDeadline)
    ensures Honest(net, q, timeout, ctxDeadline, t)
  {
    var dialed := net.dial(q);
    if !dialed.ok {
      return Try(q.server, q.now, dialed.at, dialed.at, dialed.at, QueryFailed);
    }
    var deadline := dialed.at + timeout;
    if ctxDeadline < deadline {
      deadline := ctxDeadline;
    }
    var talked := net.talk(q, dialed.at, deadline);
    if talked.records.None? {
      return Try(q.server, q.now, dialed.at, deadline, talked.at, QueryFailed);
    }
    var answers := CollectAnswers(talked.records.value);
    return Try(q.server, q.now, dialed.at, deadline, talked.at, Answers(answers));
  }

  /** Later attempts wait longer for their reply. */
  function AttemptTimeout(timeout: int, attempt: nat): int {
    timeout * (attempt + 1)
  }

  /** The server an attempt goes to. */
  function Pick(attempt: nat, servers: nat): (r: nat)
    requires servers > 0
    ensures r < servers
  {
    attempt % servers
  }

  /** One use of queryDNSRetry: at most attempts queries, in a context that ends at deadline. */
  datatype Retry = Retry(net: Network, name: string, qtype: Qtype, servers: nat, timeout: int, deadline: int,
                         attempts: nat)
  {
    function QueryAt(attempt: nat, now: int): Query
      requires servers > 0
    {
      Query(name, qtype, Pick(attempt, servers), attempt, now)
    }

    function Send(attempt: nat, now: int): (t: Try)
      requires servers > 0
      ensures t.server == Pick(attempt, servers) && t.began == now
    {
      QueryDns(net, QueryAt(attempt, now), AttemptTimeout(timeout, attempt), deadline)
    }

    /** The queries sent from the given attempt on. */
    function Tries(attempt: nat, now: int): seq<Try>
      requires servers > 0
      decreases attempts - attempt
    {
      if attempt >= attempts || now >= deadline then []
      else
        var t := Send(attempt, now);
        if t.reply.Answers? then [t] else [t] + Tries(attempt + 1, t.ended)
    }
  }

  function ReplyOf(tries: seq<Try>): Reply {
    if tries == [] then QueryFailed else tries[|tries| - 1].reply
  }

  function EndOf(tries: seq<Try>, start: int): int {
    if tries == [] then start else tries[|tries| - 1].ended
  }

  lemma OneMoreTry(r: Retry, tries: seq<Try>, attempt: nat, now: int)
    requires r.servers > 0 && attempt < r.attempts && now < r.deadline
    ensures var t := r.Send(attempt, now);
      tries + r.Tries(attempt, now) ==
        if t.reply.Answers? then tries + [t] else (tries + [t]) + r.Tries(attempt + 1, t.ended)
  {
    var t := r.Send(attempt, now);
    if t.reply.QueryFailed? {
      assert tries + ([t] + r.Tries(attempt + 1, t.ended)) == (tries + [t]) + r.Tries(attempt + 1, t.ended);
    }
  }

  /** queryDNSRetry; QueryFailed stands for its non-nil error, tries for the errors it collects. */
  method QueryDnsRetry(r: Retry, start: int) returns (reply: Reply, end: int, tries: seq<Try>)
    requires r.servers > 0
    ensures tries == r.Tries(0, start)
    ensures reply == ReplyOf(tries) && end == EndOf(tries, start)
    ensures FirstSuccess(r, 0, start, tries) && AllHonest(r, 0, tries)
  {
    var attempt := 0;
    end, tries := start, [];
    while attempt < r.attempts && end < r.deadline
      invariant 0 <= attempt <= r.attempts
      invariant end == EndOf(tries, start) && ReplyOf(tries) == QueryFailed
      invariant tries + r.Tries(attempt, end) == r.Tries(0, start)
    {
      var t := SendQuery(r.net, r.QueryAt(attempt, end), AttemptTimeout(r.timeout, attempt), r.deadline);
      OneMoreTry(r, tries, attempt, end);
      tries := tries + [t];
      end := t.ended;
      if t.reply.Answers? {
        RetryMeans(r, start);
        return t.reply, end, tries;
      }
      attempt := attempt + 1;
    }
    RetryMeans(r, start);
    return QueryFailed, end, tries;
  }

  /**
   First success in rotation order: the attempts go round the servers one after the other,
   each inside the context; all but the last one failed; and only a success, the attempt
   count or the context's end stops them.
   */
  ghost predicate FirstSuccess(r: Retry, attempt: nat, now: int, tries: seq<Try>)
    requires r.servers > 0
  {
    && (forall i :: 0 <= i < |tries| ==> InTurn(r, attempt, now, tries, i))
    && (forall i :: 0 <= i < |tries| - 1 ==> tries[i].reply.QueryFailed?)
    && (ReplyOf(tries).Answers? || attempt + |tries| >= r.attempts || EndOf(tries, now) >= r.deadline)
    && (attempt <= r.attempts ==> attempt + |tries| <= r.attempts)
  }

  /** Try i goes to the server whose turn it is, when the one before has ended. */
  ghost predicate InTurn(r: Retry, attempt: nat, now: int, tries: seq<Try>, i: nat)
    requires r.servers > 0 && i < |tries|
  {
    tries[i].server == Pick(attempt + i, r.servers) && tries[i].began == EndOf(tries[..i], now) < r.deadline
  }

  lemma {:induction false} FirstSuccessInRotation(r: Retry, attempt: nat, now: int)
    requires r.servers > 0
    ensures FirstSuccess(r, attempt, now, r.Tries(attempt, now))
    decreases r.attempts - attempt
  {
    if attempt < r.attempts && now < r.deadline {
      var t := r.Send(attempt, now);
      if t.reply.QueryFailed? {
        FirstSuccessInRotation(r, attempt + 1, t.ended);
        FailureBefore(r, attempt, now, t, r.Tries(attempt + 1, t.ended));
      }
    }
  }

  /** A failed attempt in front of a first success is a first success from one attempt earlier. */
  lemma FailureBefore(r: Retry, attempt: nat, now: int, t: Try, rest: seq<Try>)
    requires r.servers > 0 && attempt < r.attempts && FirstSuccess(r, attempt + 1, t.ended, rest)
    requires t.reply.QueryFailed? && t.server == Pick(attempt, r.servers) && t.began == now < r.deadline
    ensures FirstSuccess(r, attempt, now, [t] + rest)
  {
    var tries := [t] + rest;
    forall i | 0 <= i < |tries| ensures InTurn(r, attempt, now, tries, i) {
      if i > 0 {
        TurnAfterFailure(r, attempt, now, t, rest, i - 1);
      }
    }
    forall i | 0 <= i < |tries| - 1 ensures tries[i].reply.QueryFailed? {
      assert i > 0 ==> tries[i] == rest[i - 1];
    }
    LastAfterFailure(t, rest, now);
  }

  lemma TurnAfterFailure(r: Retry, attempt: nat, now: int, t: Try, rest: seq<Try>, i: nat)
    requires r.servers > 0 && i < |rest| && InTurn(r, attempt + 1, t.ended, rest, i)
    ensures InTurn(r, attempt, now, [t] + rest, i + 1)
  {
    EndAfterFailure(t, rest, i, now);
    assert attempt + (i + 1) == attempt + 1 + i;
  }

  lemma LastAfterFailure(t: Try, rest: seq<Try>, now: int)
    requires t.reply.QueryFailed?
    ensures EndOf([t] + rest, now) == EndOf(rest, t.ended) && ReplyOf([t] + rest) == ReplyOf(rest)
  {
  }

  lemma EndAfterFailure(t: Try, rest: seq<Try>, i: nat, now: int)
    requires i <= |rest|
    ensures EndOf(([t] + rest)[..i + 1], now) == EndOf(rest[..i], t.ended)
  {
    assert ([t] + rest)[..i + 1] == [t] + rest[..i];
  }

  /** Each try is what the network made of the query it sent: the name and type asked for, to the server in turn. */
  ghost predicate AllHonest(r: Retry, attempt: nat, tries: seq<Try>)
    requires r.servers > 0
  {
    forall i :: 0 <= i < |tries| ==> HonestAt(r, attempt + i, tries[i])
  }

  ghost predicate HonestAt(r: Retry, attempt: nat, t: Try)
    requires r.servers > 0
  {
    var q := Query(r.name, r.qtype, attempt % r.servers, attempt, t.began);
    Honest(r.net, q, r.timeout * (attempt + 1), r.deadline, t)
  }

  lemma SendIsHonest(r: Retry, attempt: nat, now: int)
    requires r.servers > 0
    ensures HonestAt(r, attempt, r.Send(attempt, now))
  {
  }

  lemma {:induction false} TriesAreHonest(r: Retry, attempt: nat, now: int)
    requires r.servers > 0
    ensures AllHonest(r, attempt, r.Tries(attempt, now))
    decreases r.attempts - attempt
  {
    if attempt < r.attempts && now < r.deadline {
      var t := r.Send(attempt, now);
      SendIsHonest(r, attempt, now);
      if t.reply.QueryFailed? {
        var rest := r.Tries(attempt + 1, t.ended);
        TriesAreHonest(r, attempt + 1, t.ended);
        forall i | 0 < i < |[t] + rest| ensures HonestAt(r, attempt + i, ([t] + rest)[i]) {
          assert attempt + i == attempt + 1 + (i - 1) && HonestAt(r, attempt + 1 + (i - 1), rest[i - 1]);
        }
      }
    }
  }

  lemma RetryMeans(r: Retry, start: int)
    requires r.servers > 0
    ensures FirstSuccess(r, 0, start, r.Tries(0, start)) && AllHonest(r, 0, r.Tries(0, start))
  {
    FirstSuccessInRotation(r, 0, start);
    TriesAreHonest(r, 0, start);
  }

  /** An answer to the first query, be it an empty one, is the only try and the reply. */
  lemma FirstAnswerIsFinal(r: Retry, start: int)
    requires r.servers > 0 && r.attempts > 0 && start < r.deadline
    requires Heard(r.net, Query(r.name, r.qtype, 0, 0, start), r.timeout, r.deadline).Some?
    ensures |r.Tries(0, start)| == 1
    ensures ReplyOf(r.Tries(0, start)) ==
      Answers(AddressRecords(Heard(r.net, Query(r.name, r.qtype, 0, 0, start), r.timeout, r.deadline).value))
    ensures var d := r.net.dial(Query(r.name, r.qtype, 0, 0, start));
      EndOf(r.Tries(0, start), start) ==
        r.net.talk(Query(r.name, r.qtype, 0, 0, start), d.at, Min(d.at + r.timeout, r.deadline)).at
  {
    PickInOrder(0, r.servers);
  }

  /** Among k servers the first min(n, k) attempts go to different ones. */
  lemma DistinctServersFirst(r: Retry, start: int, i: nat, j: nat)
    requires r.servers > 0
    requires i < j < |r.Tries(0, start)| && j < r.servers
    ensures r.Tries(0, start)[i].server != r.Tries(0, start)[j].server
  {
    FirstSuccessInRotation(r, 0, start);
    PickInOrder(i, r.servers);
    PickInOrder(j, r.servers);
    assert InTurn(r, 0, start, r.Tries(0, start), i) && InTurn(r, 0, start, r.Tries(0, start), j);
  }

  lemma PickInOrder(i: nat, k: nat)
    requires i < k
    ensures Pick(i, k) == i
  {
  }

  // ---------------------------------------------------------------- time bounds

  /** The attempts' timeouts, summed: timeout, 2x, ... nx. */
  function TotalWait(timeout: int, n: nat): int {
    if n == 0 then 0 else TotalWait(timeout, n - 1) + timeout * n
  }

  function Budget(timeout: int): int {
    timeout * DNS_ATTEMPTS * (DNS_ATTEMPTS + 1) / 2
  }

  lemma {:induction false} TotalWaitClosedForm(timeout: int, n: nat)
    ensures 2 * TotalWait(timeout, n) == timeout * n * (n + 1)
  {
    if n > 0 {
      TotalWaitClosedForm(timeout, n - 1);
      assert timeout * (n - 1) * n + 2 * (timeout * n) == timeout * n * (n + 1);
    }
  }

  /** budget() is exactly the sum of the per-attempt timeouts; its halving is exact. */
  lemma BudgetIsTotalWait(timeout: int)
    ensures Budget(timeout) == TotalWait(timeout, DNS_ATTEMPTS) && 2 * Budget(timeout) == timeout * 3 * 4
  {
    TotalWaitClosedForm(timeout, DNS_ATTEMPTS);
  }

  lemma {:induction false} TotalWaitGrows(timeout: int, m: nat, n: nat)
    requires timeout >= 0 && m <= n
    ensures TotalWait(timeout, m) <= TotalWait(timeout, n)
  {
    if m < n {
      TotalWaitGrows(timeout, m, n - 1);
      assert timeout * n >= 0;
    }
  }

  /** Clocks do not go back, and no operation outlives the deadline it was given. */
  ghost predicate Respectful(net: Network, ctxDeadline: int) {
    && (forall q: Query :: q.now <= net.dial(q).at && (q.now <= ctxDeadline ==> net.dial(q).at <= ctxDeadline))
    && (forall q: Query, t: int, d: int ::
         t <= net.talk(q, t, d).at && (net.talk(q, t, d).at <= t || net.talk(q, t, d).at <= d))
  }

  lemma {:induction false} TriesEndInTime(r: Retry, attempt: nat, now: int)
    requires r.servers > 0 && Respectful(r.net, r.deadline)
    ensures var end := EndOf(r.Tries(attempt, now), now);
      now <= end && (now <= r.deadline ==> end <= r.deadline)
    decreases r.attempts - attempt
  {
    var tries := r.Tries(attempt, now);
    if tries != [] && tries[0].reply.QueryFailed? {
      TriesEndInTime(r, attempt + 1, tries[0].ended);
    }
  }

  function ForLookup(net: Network, cfg: Config, name: string, qtype: Qtype, start: int): Retry {
    Retry(net, name, qtype, |cfg.servers|, cfg.timeout, start + Budget(cfg.timeout), DNS_ATTEMPTS)
  }

  /** The A queries of a lookup, and the AAAA queries, if it came to that. */
  function ATries(net: Network, cfg: Config, name: string, start: int): seq<Try> {
    if cfg.servers == [] then [] else ForLookup(net, cfg, name, TypeA, start).Tries(0, start)
  }

  function AaaaTries(net: Network, cfg: Config, name: string, start: int): seq<Try> {
    var a := ATries(net, cfg, name, start);
    if cfg.servers == [] || ReplyOf(a) != Answers([]) || cfg.ipv4Only then []
    else ForLookup(net, cfg, name, TypeAAAA, start).Tries(0, EndOf(a, start))
  }

  /** What a lookup of name that begins at start answers. */
  function OutcomeOf(net: Network, cfg: Config, name: string, start: int): Outcome {
    Decide(cfg, ReplyOf(ATries(net, cfg, name, start)), ReplyOf(AaaaTries(net, cfg, name, start)))
  }

  /**
   lookup, in a context that ends budget() after start: A first, then AAAA if there is no
   A record. It ends within that budget whenever the network respects its deadlines.
   */
  method Lookup(net: Network, cfg: Config, name: string, start: int) returns (o: Outcome, end: int)
    ensures o == OutcomeOf(net, cfg, name, start)
    ensures Respectful(net, start + Budget(cfg.timeout)) ==>
      start <= end && (end == start || end <= start + Budget(cfg.timeout))
    ensures forall ip: Addr :: FirstAnswered(net, cfg, name, start, ip) ==> o.Resolved? && o.ip == ip
    ensures Silent(net) ==> o.Failed?
    ensures o.Resolved? ==> WasAnswered(net, cfg, name, start, o.ip)
  {
    LookupMeans(net, cfg, name, start);
    end := start;
    if |cfg.servers| == 0 {
      return Failed(NoServers), end;
    }
    var reply, tries;
    reply, end, tries := QueryDnsRetry(ForLookup(net, cfg, name, TypeA, start), start);
    if Respectful(net, start + Budget(cfg.timeout)) {
      TriesEndInTime(ForLookup(net, cfg, name, TypeA, start), 0, start);
      TriesEndInTime(ForLookup(net, cfg, name, TypeAAAA, start), 0, end);
    }
    if reply == Answers([]) && !cfg.ipv4Only {
      reply, end, tries := QueryDnsRetry(ForLookup(net, cfg, name, TypeAAAA, start), end);
    }
    match reply {
      case QueryFailed => o := Failed(QueryError);
      case Answers(answers) =>
        if |answers| == 0 {
          o := Failed(NoRecord);
        } else if IsLoopback(answers[0].ip) {
          o := Failed(LoopbackAnswer);
        } else {
          o := Resolved(answers[0].ip, Clamp(answers[0].ttl, cfg.minTTL, cfg.maxTTL));
        }
    }
  }

  // ---------------------------------------- what lookups have to do with the network

  /** No query is ever answered. */
  ghost predicate Silent(net: Network) {
    forall q: Query, t: int, d: int :: net.dial(q).ok ==> net.talk(q, t, d).records.None?
  }

  /** The first query for name's A records, or the first for its AAAA records after that, and what it heard. */
  function HeardFirst(net: Network, cfg: Config, name: string, qtype: Qtype, start: int, now: int)
    : Option<seq<Resource>>
  {
    Heard(net, Query(name, qtype, 0, 0, now), cfg.timeout, start + 6 * cfg.timeout)
  }

  /** The first A query of a lookup is answered, with ip as its first address. */
  ghost predicate FirstAnswered(net: Network, cfg: Config, name: string, start: int, ip: Addr) {
    var heard := HeardFirst(net, cfg, name, TypeA, start, start);
    && |cfg.servers| > 0 && cfg.timeout > 0 && heard.Some? && !IsLoopback(ip)
    && exists k: nat :: FirstAddressAt(heard.value, k) && ToAnswer(heard.value[k]).ip == ip
  }

  /**
   The network answered a query for name, sent while the lookup ran, with ip as its first
   address; the query was no AAAA query if those are not allowed.
   */
  ghost predicate WasAnswered(net: Network, cfg: Config, name: string, start: int, ip: Addr) {
    exists q: Query, d: int, k: nat ::
      AnsweredWith(net, q, d, k, ip) && SentIn(net, q, name, |cfg.servers|, start, start + 6 * cfg.timeout)
      && (q.qtype.TypeAAAA? ==> !cfg.ipv4Only)
  }

  /** A query for name, to one of the servers, between start and deadline if clocks do not go back. */
  ghost predicate SentIn(net: Network, q: Query, name: string, servers: nat, start: int, deadline: int) {
    q.name == name && q.server < servers && q.now < deadline && (Monotonic(net) ==> start <= q.now)
  }

  ghost predicate Monotonic(net: Network) {
    && (forall q: Query :: q.now <= net.dial(q).at)
    && (forall q: Query, t: int, d: int :: t <= net.talk(q, t, d).at)
  }

  lemma {:induction false} TriesBeginLater(r: Retry, attempt: nat, now: int)
    requires r.servers > 0 && Monotonic(r.net)
    ensures forall i :: 0 <= i < |r.Tries(attempt, now)| ==> now <= r.Tries(attempt, now)[i].began
    ensures now <= EndOf(r.Tries(attempt, now), now)
    decreases r.attempts - attempt
  {
    if attempt < r.attempts && now < r.deadline {
      var t := r.Send(attempt, now);
      assert now <= t.dialed && t.dialed <= t.ended;
      if t.reply.QueryFailed? {
        var rest := r.Tries(attempt + 1, t.ended);
        TriesBeginLater(r, attempt + 1, t.ended);
        forall i | 0 <= i < |[t] + rest| ensures now <= ([t] + rest)[i].began {
          assert i > 0 ==> ([t] + rest)[i] == rest[i - 1];
        }
      }
    }
  }

  ghost predicate AnsweredWith(net: Network, q: Query, d: int, k: nat, ip: Addr) {
    && net.dial(q).ok
    && var heard := net.talk(q, net.dial(q).at, d).records;
       heard.Some? && FirstAddressAt(heard.value, k) && ToAnswer(heard.value[k]).ip == ip
  }

  lemma ForLookupIs(net: Network, cfg: Config, name: string, qtype: Qtype, start: int)
    ensures ForLookup(net, cfg, name, qtype, start)
         == Retry(net, name, qtype, |cfg.servers|, cfg.timeout, start + 6 * cfg.timeout, 3)
  {
    BudgetIsTotalWait(cfg.timeout);
  }

  /** A lookup whose first A query is answered with an address is decided by it. */
  lemma AnsweredAtOnce(net: Network, cfg: Config, name: string, start: int, k: nat)
    requires |cfg.servers| > 0 && cfg.timeout > 0 && cfg.minTTL <= cfg.maxTTL
    requires var heard := HeardFirst(net, cfg, name, TypeA, start, start);
      heard.Some? && FirstAddressAt(heard.value, k)
    ensures DecidedBy(cfg, OutcomeOf(net, cfg, name, start),
                      ToAnswer(HeardFirst(net, cfg, name, TypeA, start, start).value[k]))
  {
    var heard := HeardFirst(net, cfg, name, TypeA, start, start);
    ForLookupIs(net, cfg, name, TypeA, start);
    FirstAnswerIsFinal(ForLookup(net, cfg, name, TypeA, start), start);
    FirstAnswer(heard.value, k);
  }

  /** When the first A query of a lookup has been answered. */
  function AnsweredAt(net: Network, cfg: Config, name: string, start: int): int {
    var q := Query(name, TypeA, 0, 0, start);
    net.talk(q, net.dial(q).at, Min(net.dial(q).at + cfg.timeout, start + 6 * cfg.timeout)).at
  }

  /** A host without A records is decided by the first AAAA query, if that is answered with an address in time. */
  lemma Ipv6OnlyHostResolves(net: Network, cfg: Config, name: string, start: int, k: nat)
    requires |cfg.servers| > 0 && cfg.timeout > 0 && cfg.minTTL <= cfg.maxTTL && !cfg.ipv4Only
    requires var a := HeardFirst(net, cfg, name, TypeA, start, start);
      a.Some? && forall i :: 0 <= i < |a.value| ==> !IsAddress(a.value[i])
    requires AnsweredAt(net, cfg, name, start) < start + 6 * cfg.timeout
    requires var aaaa := HeardFirst(net, cfg, name, TypeAAAA, start, AnsweredAt(net, cfg, name, start));
      aaaa.Some? && FirstAddressAt(aaaa.value, k)
    ensures DecidedBy(cfg, OutcomeOf(net, cfg, name, start),
      ToAnswer(HeardFirst(net, cfg, name, TypeAAAA, start, AnsweredAt(net, cfg, name, start)).value[k]))
  {
    var a := HeardFirst(net, cfg, name, TypeA, start, start);
    ForLookupIs(net, cfg, name, TypeA, start);
    FirstAnswerIsFinal(ForLookup(net, cfg, name, TypeA, start), start);
    NoAddress(a.value);
    var now := AnsweredAt(net, cfg, name, start);
    assert EndOf(ATries(net, cfg, name, start), start) == now;
    ForLookupIs(net, cfg, name, TypeAAAA, start);
    FirstAnswerIsFinal(ForLookup(net, cfg, name, TypeAAAA, start), now);
    FirstAnswer(HeardFirst(net, cfg, name, TypeAAAA, start, now).value, k);
  }

  lemma {:induction false} SilentTriesFail(r: Retry, attempt: nat, now: int)
    requires r.servers > 0 && Silent(r.net)
    ensures ReplyOf(r.Tries(attempt, now)) == QueryFailed
    decreases r.attempts - attempt
  {
    if attempt < r.attempts && now < r.deadline {
      var t := r.Send(attempt, now);
      SendIsHonest(r, attempt, now);
      SilentTriesFail(r, attempt + 1, t.ended);
    }
  }

  /** The last of a retry's tries, if it succeeded, was answered by the network. */
  lemma SuccessWasAnswered(r: Retry, start: int, first: Answer)
    requires r.servers > 0 && Carries(ReplyOf(r.Tries(0, start)), first)
    ensures exists q: Query, d: int, k: nat ::
      AnsweredWith(r.net, q, d, k, first.ip) && SentIn(r.net, q, r.name, r.servers, start, r.deadline)
      && q.qtype == r.qtype
  {
    var tries := r.Tries(0, start);
    var i := |tries| - 1;
    FirstSuccessInRotation(r, 0, start);
    TriesAreHonest(r, 0, start);
    assert InTurn(r, 0, start, tries, i) && HonestAt(r, 0 + i, tries[i]);
    var q := Query(r.name, r.qtype, i % r.servers, i, tries[i].began);
    var records := Heard(r.net, q, r.timeout * (i + 1), r.deadline).value;
    var k := SomeFirstAddress(records);
    FirstAnswer(records, k);
    var dialed := r.net.dial(q).at;
    var d := if dialed + r.timeout * (i + 1) <= r.deadline then dialed + r.timeout * (i + 1) else r.deadline;
    if Monotonic(r.net) {
      TriesBeginLater(r, 0, start);
    }
    assert AnsweredWith(r.net, q, d, k, first.ip) && SentIn(r.net, q, r.name, r.servers, start, r.deadline);
  }

  lemma OutcomeWasAnswered(net: Network, cfg: Config, name: string, start: int)
    requires OutcomeOf(net, cfg, name, start).Resolved?
    ensures WasAnswered(net, cfg, name, start, OutcomeOf(net, cfg, name, start).ip)
  {
    var a, aaaa := ReplyOf(ATries(net, cfg, name, start)), ReplyOf(AaaaTries(net, cfg, name, start));
    OutcomeIff(cfg, a, aaaa, Answer(V4(0), 0));
    ForLookupIs(net, cfg, name, TypeA, start);
    ForLookupIs(net, cfg, name, TypeAAAA, start);
    if a == Answers([]) {
      var now := EndOf(ATries(net, cfg, name, start), start);
      if Monotonic(net) {
        TriesBeginLater(ForLookup(net, cfg, name, TypeA, start), 0, start);
      }
      SuccessWasAnswered(ForLookup(net, cfg, name, TypeAAAA, start), now, aaaa.answers[0]);
    } else {
      SuccessWasAnswered(ForLookup(net, cfg, name, TypeA, start), start, a.answers[0]);
    }
  }

  /** What a lookup answers, in terms of the network alone. */
  lemma LookupMeans(net: Network, cfg: Config, name: string, start: int)
    ensures var o := OutcomeOf(net, cfg, name, start);
      && (forall ip: Addr :: FirstAnswered(net, cfg, name, start, ip) ==> o.Resolved? && o.ip == ip)
      && (Silent(net) ==> o.Failed?)
      && (o.Resolved? ==> WasAnswered(net, cfg, name, start, o.ip))
  {
    var o := OutcomeOf(net, cfg, name, start);
    forall ip: Addr | FirstAnswered(net, cfg, name, start, ip) ensures o.Resolved? && o.ip == ip {
      FirstAnswerDecides(net, cfg, name, start, ip);
    }
    if Silent(net) && cfg.servers != [] {
      SilentTriesFail(ForLookup(net, cfg, name, TypeA, start), 0, start);
    }
    if o.Resolved? {
      OutcomeWasAnswered(net, cfg, name, start);
    }
  }

  lemma FirstAnswerDecides(net: Network, cfg: Config, name: string, start: int, ip: Addr)
    requires FirstAnswered(net, cfg, name, start, ip)
    ensures var o := OutcomeOf(net, cfg, name, start); o.Resolved? && o.ip == ip
  {
    var records := HeardFirst(net, cfg, name, TypeA, start, start).value;
    var k: nat :| FirstAddressAt(records, k) && ToAnswer(records[k]).ip == ip;
    ForLookupIs(net, cfg, name, TypeA, start);
    FirstAnswerIsFinal(ForLookup(net, cfg, name, TypeA, start), start);
    FirstAnswer(records, k);
  }

  // ------------------------------------------------------------- waiting in full

  /** Dialing, a local operation for UDP, takes no time. */
  ghost predicate InstantDial(net: Network) {
    forall q: Query :: net.dial(q).at == q.now
  }

  lemma TotalWaitStep(timeout: int, n: nat)
    requires timeout >= 0
    ensures TotalWait(timeout, n + 1) == TotalWait(timeout, n) + AttemptTimeout(timeout, n)
      && AttemptTimeout(timeout, n) >= 0
  {
  }

  /** Try t, the given attempt, waited for its whole timeout unless it could not dial, and ended by then. */
  ghost predicate NotCutShort(r: Retry, start: int, attempt: nat, t: Try) {
    && (r.net.dial(Query(r.name, r.qtype, t.server, attempt, t.began)).ok ==>
          t.deadline == t.began + AttemptTimeout(r.timeout, attempt))
    && t.ended <= start + TotalWait(r.timeout, attempt + 1)
  }

  lemma AttemptNotCutShort(r: Retry, start: int, attempt: nat, now: int)
    requires r.servers > 0 && r.timeout >= 0 && attempt < r.attempts
    requires r.deadline == start + TotalWait(r.timeout, r.attempts)
    requires Respectful(r.net, r.deadline) && InstantDial(r.net)
    requires now <= start + TotalWait(r.timeout, attempt)
    ensures NotCutShort(r, start, attempt, r.Send(attempt, now))
  {
    TotalWaitGrows(r.timeout, attempt + 1, r.attempts);
    TotalWaitStep(r.timeout, attempt);
  }

  /**
   If nothing but waiting for replies takes time, a context of n attempts' total wait cuts
   no attempt short: attempt i's socket deadline is its own timeout after it began.
   */
  lemma {:induction false} FirstQueryNotCutShort(r: Retry, start: int, attempt: nat, now: int, i: nat)
    requires r.servers > 0 && r.timeout >= 0 && attempt <= r.attempts
    requires r.deadline == start + TotalWait(r.timeout, r.attempts)
    requires Respectful(r.net, r.deadline) && InstantDial(r.net)
    requires now <= start + TotalWait(r.timeout, attempt)
    requires i < |r.Tries(attempt, now)|
    ensures NotCutShort(r, start, attempt + i, r.Tries(attempt, now)[i])
    decreases r.attempts - attempt
  {
    var t := r.Send(attempt, now);
    AttemptNotCutShort(r, start, attempt, now);
    if i > 0 {
      FirstQueryNotCutShort(r, start, attempt + 1, t.ended, i - 1);
      assert r.Tries(attempt, now)[i] == r.Tries(attempt + 1, t.ended)[i - 1];
      assert attempt + i == attempt + 1 + (i - 1);
    }
  }
}
