/** What the caching resolver promises over every run of every interleaving. */
module ResolverGuarantees {
  import opened Text
  import opened Addresses
  import opened Dns
  import opened SingleFlight

  ghost predicate ValidRun(p: Settings, states: seq<State>, labels: seq<Label>) {
    p.cfg.minTTL <= p.cfg.maxTTL && IsRun(p, states, labels)
  }

  // ------------------------------------------------------------ single flight

  /** At most one lookup per key is under way, and the inflight table lists exactly those. */
  lemma OneLookupPerKey(p: Settings, states: seq<State>, labels: seq<Label>, i: nat, key: string)
    requires ValidRun(p, states, labels) && i < |states|
    ensures var s := states[i];
      forall c :: 0 <= c < |s.lookups| && s.lookups[c].key == key && Unpublished(s.lookups[c])
        <==> key in s.mem.inflight && s.mem.inflight[key] == c
  {
    InvHolds(p, states, labels, i);
    var s := states[i];
    forall c | 0 <= c < |s.lookups| && s.lookups[c].key == key && Unpublished(s.lookups[c])
      ensures key in s.mem.inflight && s.mem.inflight[key] == c
    {
      assert LookupOk(p, s, c);
    }
  }

  /** The delete at the end of a lookup removes that lookup's own call and nothing else. */
  lemma PublishDeletesOwnCall(p: Settings, states: seq<State>, labels: seq<Label>, i: nat, c: nat)
    requires ValidRun(p, states, labels) && i < |labels| && labels[i] == Publish(c)
    ensures c < |states[i].lookups|
    ensures var key, before, after := states[i].lookups[c].key, states[i].mem.inflight, states[i + 1].mem.inflight;
      && key in before && before[key] == c && key !in after
      && forall k :: k != key ==> (k in after <==> k in before) && (k in before ==> after[k] == before[k])
  {
    InvHolds(p, states, labels, i);
    assert Steps(p, states, labels, i) && LookupOk(p, states[i], c);
  }

  // ---------------------------------------------------------------- delivery

  /** The step by which a lookup reaches the given rank. */
  function StepTo(c: nat, rank: nat): Label
    requires 2 <= rank <= 4
  {
    if rank == 2 then Publish(c) else if rank == 3 then WriteResult(c) else Close(c)
  }

  /** A lookup only gets past a stage by the step that leads there. */
  lemma {:induction false} Reached(p: Settings, states: seq<State>, labels: seq<Label>, i: nat, c: nat, rank: nat)
    returns (m: nat)
    requires ValidRun(p, states, labels) && i < |states| && c < |states[i].lookups|
    requires 2 <= rank <= Rank(states[i].lookups[c].stage)
    ensures m < i && labels[m] == StepTo(c, rank)
    ensures c < |states[m].lookups| && states[m].lookups[c].outcome == states[i].lookups[c].outcome
    ensures rank == 2 ==> states[i].lookups[c].publishedAt == states[m].now
  {
    assert Steps(p, states, labels, i - 1);
    InvHolds(p, states, labels, i - 1);
    if labels[i - 1] == StepTo(c, rank) {
      m := i - 1;
    } else {
      assert c < |states[i - 1].lookups|;
      m := Reached(p, states, labels, i - 1, c, rank);
    }
  }

  /** No lookup publishes, writes its result or closes its channel twice. */
  lemma AtMostOnce(p: Settings, states: seq<State>, labels: seq<Label>, i: nat, j: nat, c: nat, rank: nat)
    requires ValidRun(p, states, labels) && i < |labels| && j < |labels| && 2 <= rank <= 4
    requires labels[i] == labels[j] == StepTo(c, rank)
    ensures i == j
  {
    if i != j {
      var first, second := if i < j then i else j, if i < j then j else i;
      assert Steps(p, states, labels, first) && Steps(p, states, labels, second);
      RanksGrow(p, states, labels, first + 1, second, c);
    }
  }

  lemma RanksGrow(p: Settings, states: seq<State>, labels: seq<Label>, i: nat, j: nat, c: nat)
    requires ValidRun(p, states, labels) && i <= j < |states| && c < |states[i].lookups|
    ensures c < |states[j].lookups| && Rank(states[i].lookups[c].stage) <= Rank(states[j].lookups[c].stage)
  {
    RunIsLater(p, states, labels, i, j);
    assert Advances(states[i].lookups[c], states[j].lookups[c]);
  }

  /**
   What a waiter receives over the done channel: its call was published, then written, then
   closed, before the waiter read it; what it read is that lookup's outcome, whole; the call
   had left the inflight table by then; and a success is already in the cache.
   */
  lemma Delivery(p: Settings, states: seq<State>, labels: seq<Label>, k: nat, t: nat)
    returns (published: nat, written: nat, closed: nat)
    requires ValidRun(p, states, labels) && k < |labels| && labels[k] == TakeDone(t)
    ensures t in states[k].callers && states[k].callers[t].Waiting?
    ensures var c := states[k].callers[t].call;
      && published < written < closed < k
      && labels[published] == Publish(c) && labels[written] == WriteResult(c) && labels[closed] == Close(c)
      && c < |states[k].lookups| && c < |states[published].lookups| && c < |states[k].mem.calls|
      && states[k].lookups[c].outcome == states[published].lookups[c].outcome != None
      && var o, key := states[k].lookups[c].outcome.value, states[k].lookups[c].key;
         && states[k].mem.calls[c] == WithResult(NEW_CALL, o).(done := true)
         && !(key in states[k].mem.inflight && states[k].mem.inflight[key] == c)
         && (o.Resolved? ==> key in states[k].mem.cache)
  {
    InvHolds(p, states, labels, k);
    assert Steps(p, states, labels, k);
    var c := states[k].callers[t].call;
    assert LookupOk(p, states[k], c);
    closed := Reached(p, states, labels, k, c, 4);
    assert Steps(p, states, labels, closed);
    written := Reached(p, states, labels, closed, c, 3);
    assert Steps(p, states, labels, written);
    published := Reached(p, states, labels, written, c, 2);
  }

  /** All waiters that take the done branch of one call read the same fields. */
  lemma WaitersAgree(p: Settings, states: seq<State>, labels: seq<Label>, k: nat, t: nat, k': nat, t': nat)
    requires ValidRun(p, states, labels) && k < |labels| && k' < |labels|
    requires labels[k] == TakeDone(t) && labels[k'] == TakeDone(t')
    requires t in states[k].callers && t' in states[k'].callers
    requires states[k].callers[t].Waiting? && states[k'].callers[t'].Waiting?
    requires states[k].callers[t].call == states[k'].callers[t'].call
    ensures var c := states[k].callers[t].call;
      c < |states[k].mem.calls| && c < |states[k'].mem.calls| && states[k].mem.calls[c] == states[k'].mem.calls[c]
  {
    var published, written, closed := Delivery(p, states, labels, k, t);
    var published', written', closed' := Delivery(p, states, labels, k', t');
    AtMostOnce(p, states, labels, published, published', states[k].callers[t].call, 2);
  }

  ghost predicate IsPath(p: Settings, states: seq<State>, labels: seq<Label>) {
    |states| == |labels| + 1 && forall i :: 0 <= i < |labels| ==> Steps(p, states, labels, i)
  }

  lemma PathFrom(p: Settings, s: State, step: Label, states: seq<State>, labels: seq<Label>)
    requires IsPath(p, states, labels) && Enabled(s, step) && states[0] == Apply(p, s, step)
    ensures IsPath(p, [s] + states, [step] + labels)
  {
    var longer, more := [s] + states, [step] + labels;
    forall i | 0 <= i < |more| ensures Steps(p, longer, more, i) {
      if i > 0 {
        assert Steps(p, states, labels, i - 1);
      }
    }
  }

  /** A step that call c's own lookup takes, its queries answered by a and aaaa. */
  predicate OwnStep(l: Label, c: nat, a: Reply, aaaa: Reply) {
    l == FinishLookup(c, a, aaaa) || l == Publish(c) || l == WriteResult(c) || l == Close(c)
  }

  /** The next step of an unfinished lookup can be taken, and brings it one stage further. */
  lemma LookupCanStep(p: Settings, s: State, c: nat, t: nat, a: Reply, aaaa: Reply) returns (step: Label, next: State)
    requires p.cfg.minTTL <= p.cfg.maxTTL && Inv(p, s) && c < |s.lookups| && !s.lookups[c].stage.Closed?
    requires t in s.callers
    ensures OwnStep(step, c, a, aaaa) && Enabled(s, step) && next == Apply(p, s, step) && Inv(p, next)
    ensures c < |next.lookups| && Rank(next.lookups[c].stage) == Rank(s.lookups[c].stage) + 1
    ensures t in next.callers && next.callers[t] == s.callers[t]
  {
    assert LookupOk(p, s, c);
    var stage := s.lookups[c].stage;
    step := if stage.Looking? then FinishLookup(c, a, aaaa) else StepTo(c, Rank(stage) + 1);
    next := Apply(p, s, step);
    InvKept(p, s, step);
  }

  lemma TakesResult(p: Settings, s: State, t: nat) returns (states: seq<State>, labels: seq<Label>)
    requires Inv(p, s) && t in s.callers && s.callers[t].Waiting?
    requires s.callers[t].call < |s.lookups| && s.lookups[s.callers[t].call].stage.Closed?
    ensures labels == [TakeDone(t)] && IsPath(p, states, labels) && states[0] == s
    ensures t in states[1].callers && states[1].callers[t].FromCall?
  {
    assert LookupOk(p, s, s.callers[t].call);
    states, labels := [s, Apply(p, s, TakeDone(t))], [TakeDone(t)];
  }

  /**
   No waiter is ever stuck: whatever the DNS servers answer, the steps its lookup has left
   and its own read of the result can always be taken, and bring it that lookup's outcome.
   */
  lemma {:induction false} WaiterCanFinish(p: Settings, s: State, t: nat, a: Reply, aaaa: Reply)
    returns (states: seq<State>, labels: seq<Label>)
    requires p.cfg.minTTL <= p.cfg.maxTTL && Inv(p, s) && t in s.callers && s.callers[t].Waiting?
    ensures CallOk(s, s.callers[t].host, s.callers[t].call)
    ensures IsPath(p, states, labels) && states[0] == s && |labels| == 5 - Rank(s.lookups[s.callers[t].call].stage)
    ensures labels[|labels| - 1] == TakeDone(t)
    ensures forall i :: 0 <= i < |labels| - 1 ==> OwnStep(labels[i], s.callers[t].call, a, aaaa)
    ensures t in states[|labels|].callers && states[|labels|].callers[t].FromCall?
    decreases 4 - Rank(s.lookups[s.callers[t].call].stage)
  {
    var c := s.callers[t].call;
    assert CallerOk(p, s, t, s.callers[t]);
    if s.lookups[c].stage.Closed? {
      states, labels := TakesResult(p, s, t);
    } else {
      var step, next := LookupCanStep(p, s, c, t, a, aaaa);
      var more, rest := WaiterCanFinish(p, next, t, a, aaaa);
      PathFrom(p, s, step, more, rest);
      states, labels := [s] + more, [step] + rest;
    }
  }

  // ------------------------------------------------- provenance and freshness

  /** Step m of the run publishes the answer (ip, ttl) for key. */
  ghost predicate Publishes(states: seq<State>, labels: seq<Label>, m: nat, key: string, ip: Addr, ttl: int)
    requires |states| == |labels| + 1
  {
    && m < |labels| && labels[m].Publish? && labels[m].c < |states[m].lookups|
    && states[m].lookups[labels[m].c].key == key
    && states[m].lookups[labels[m].c].outcome == Some(Resolved(ip, ttl))
  }

  predicate PastCheck(c: Caller) {
    c.Missed? || c.Waiting? || c.FromCache? || c.FromCall? || c.GaveUp?
  }

  /** Every caller past its expiry check made that check at a step of the run, on the entry it holds. */
  lemma {:induction false} CheckedInRun(p: Settings, states: seq<State>, labels: seq<Label>, i: nat, t: nat)
    returns (k: nat)
    requires ValidRun(p, states, labels) && i < |states|
    requires t in states[i].callers && PastCheck(states[i].callers[t])
    ensures k < i && labels[k] == CheckExpiry(t) && states[k].now == states[i].callers[t].checkedAt
    ensures t in states[k].callers
    ensures states[k].callers[t] == HasRead(states[i].callers[t].host, states[i].callers[t].seen)
  {
    assert Steps(p, states, labels, i - 1);
    if labels[i - 1] == CheckExpiry(t) {
      k := i - 1;
    } else {
      k := CheckedInRun(p, states, labels, i - 1, t);
    }
  }

  /** The entry a caller read was published earlier in the run, under the caller's key. */
  lemma SeenWasPublished(p: Settings, states: seq<State>, labels: seq<Label>, k: nat, t: nat) returns (m: nat)
    requires ValidRun(p, states, labels) && k < |states|
    requires t in states[k].callers && states[k].callers[t].HasRead? && states[k].callers[t].seen.Some?
    ensures var e := states[k].callers[t].seen.value;
      && m < k && Publishes(states, labels, m, ToLower(states[k].callers[t].host), e.ip, e.expiry - states[m].now)
      && p.cfg.minTTL <= e.expiry - states[m].now <= p.cfg.maxTTL && !IsLoopback(e.ip)
  {
    InvHolds(p, states, labels, k);
    var key, e := ToLower(states[k].callers[t].host), states[k].callers[t].seen.value;
    assert CallerOk(p, states[k], t, states[k].callers[t]);
    var c :| 0 <= c < |states[k].lookups| && Sourced(states[k].lookups[c], key, e);
    assert LookupOk(p, states[k], c);
    m := Reached(p, states, labels, k, c, 2);
    RunIsLater(p, states, labels, m, k);
    assert Advances(states[m].lookups[c], states[k].lookups[c]);
  }

  /** (a) Published less than its clamped TTL before the caller's check. */
  ghost predicate FreshAnswer(p: Settings, states: seq<State>, labels: seq<Label>, t: nat, key: string, ip: Addr)
    requires |states| == |labels| + 1
  {
    exists m, k, ttl :: 0 <= m < k < |labels| && labels[k] == CheckExpiry(t)
      && Publishes(states, labels, m, key, ip, ttl)
      && p.cfg.minTTL <= ttl <= p.cfg.maxTTL && states[k].now < states[m].now + ttl
  }

  /** (b) Published by the lookup the caller joined. */
  ghost predicate JoinedAnswer(states: seq<State>, labels: seq<Label>, c: nat, key: string, ip: Addr)
    requires |states| == |labels| + 1
  {
    exists m, ttl :: 0 <= m < |labels| && labels[m] == Publish(c) && Publishes(states, labels, m, key, ip, ttl)
  }

  /** (c) Published earlier and expired at the caller's check. */
  ghost predicate StaleAnswer(p: Settings, states: seq<State>, labels: seq<Label>, t: nat, key: string, ip: Addr)
    requires |states| == |labels| + 1
  {
    exists m, k, ttl :: 0 <= m < k < |labels| && labels[k] == CheckExpiry(t)
      && Publishes(states, labels, m, key, ip, ttl)
      && p.cfg.minTTL <= ttl <= p.cfg.maxTTL && states[m].now + ttl <= states[k].now
  }

  predicate CallFailed(s: State, c: nat) {
    c < |s.lookups| && s.lookups[c].stage.Closed? && s.lookups[c].outcome.Some? && s.lookups[c].outcome.value.Failed?
  }

  /**
   Where an address comes from: a Resolve of a name returns a fresh answer for that name
   (up to letter case), the answer of the lookup it joined, or an expired one, and the last
   only if the joined lookup failed or its own context ended. An error is only returned
   for the latter two reasons, and only if the name was not in the cache when it looked.
   */
  lemma Provenance(p: Settings, states: seq<State>, labels: seq<Label>, i: nat, t: nat)
    requires ValidRun(p, states, labels) && i < |states|
    requires t in states[i].callers && states[i].callers[t].Returned() && p.parse(states[i].callers[t].host).None?
    ensures !states[i].callers[t].FromLiteral?
    ensures var c := states[i].callers[t];
      var key := ToLower(c.host);
      var excused := (c.FromCall? && CallFailed(states[i], c.call)) || (c.GaveUp? && t in states[i].ended);
      match c.result
      case Ok(target) => target.Ip? && !IsLoopback(target.addr) && (
          || (c.FromCache? && FreshAnswer(p, states, labels, t, key, target.addr))
          || (c.FromCall? && JoinedAnswer(states, labels, c.call, key, target.addr))
          || (StaleAnswer(p, states, labels, t, key, target.addr) && excused))
      case Err(why) =>
        && c.seen.None? && excused
        && (c.FromCall? ==> why == LookupFailed(states[i].lookups[c.call].outcome.value.error))
        && (c.GaveUp? ==> why == ContextEnded)
  {
    InvHolds(p, states, labels, i);
    var s, c := states[i], states[i].callers[t];
    assert CallerOk(p, s, t, c);
    var k := CheckedInRun(p, states, labels, i, t);
    if c.FromCall? && s.lookups[c.call].outcome.value.Resolved? {
      assert LookupOk(p, s, c.call);
      var m := Reached(p, states, labels, i, c.call, 2);
      RunIsLater(p, states, labels, m, i);
      assert Advances(states[m].lookups[c.call], s.lookups[c.call]);
      assert Publishes(states, labels, m, ToLower(c.host), c.result.target.addr, s.lookups[c.call].outcome.value.ttl);
    } else if c.seen.Some? {
      var m := SeenWasPublished(p, states, labels, k, t);
      assert Publishes(states, labels, m, ToLower(c.host), c.seen.value.ip, c.seen.value.expiry - states[m].now);
    }
  }

  /** What Resolve does with an IP literal, at any time and in any run. */
  lemma LiteralsPassThrough(p: Settings, states: seq<State>, labels: seq<Label>, i: nat, t: nat)
    requires ValidRun(p, states, labels) && i < |states| && t in states[i].callers
    requires p.parse(states[i].callers[t].host).Some?
    ensures var c, a := states[i].callers[t], p.parse(states[i].callers[t].host).value;
      && c.FromLiteral?
      && (c.result == Ok(Verbatim(c.host)) <==> !IsLoopback(a) && (p.cfg.ipv4Only ==> Unmap(a).V4?))
      && (c.result.Ok? ==> c.result.target == Verbatim(c.host))
      && (c.result == Err(LoopbackLiteral) <==> IsLoopback(a))
      && (c.result == Err(Ipv6Literal) <==> !IsLoopback(a) && p.cfg.ipv4Only && !IsIpv4(a))
  {
    InvHolds(p, states, labels, i);
    assert CallerOk(p, states[i], t, states[i].callers[t]);
  }

  /** No loopback address, and no empty one, is ever cached or returned, by any path. */
  lemma NoLoopbackAnywhere(p: Settings, states: seq<State>, labels: seq<Label>, i: nat)
    requires ValidRun(p, states, labels) && i < |states|
    ensures forall k :: k in states[i].mem.cache ==> !IsLoopback(states[i].mem.cache[k].ip)
    ensures forall t :: t in states[i].callers && states[i].callers[t].Returned() && states[i].callers[t].result.Ok? ==>
      match states[i].callers[t].result.target
      case Verbatim(host) => p.parse(host).Some? && !IsLoopback(p.parse(host).value)
      case Ip(addr) => !IsLoopback(addr)
      case EmptyTarget => false
  {
    InvHolds(p, states, labels, i);
    var s := states[i];
    forall k | k in s.mem.cache ensures !IsLoopback(s.mem.cache[k].ip) {
      var c :| 0 <= c < |s.lookups| && Sourced(s.lookups[c], k, s.mem.cache[k]);
      assert LookupOk(p, s, c);
    }
    forall t | t in s.callers && s.callers[t].Returned() && s.callers[t].result.Ok?
      ensures match s.callers[t].result.target
        case Verbatim(host) => p.parse(host).Some? && !IsLoopback(p.parse(host).value)
        case Ip(addr) => !IsLoopback(addr)
        case EmptyTarget => false
    {
      assert CallerOk(p, s, t, s.callers[t]);
      if p.parse(s.callers[t].host).None? {
        Provenance(p, states, labels, i, t);
      }
    }
  }

  /** A lookup's outcome was decided by the replies of a step of the run. */
  lemma {:induction false} OutcomeDecided(p: Settings, states: seq<State>, labels: seq<Label>, i: nat, c: nat)
    returns (m: nat)
    requires ValidRun(p, states, labels) && i < |states| && c < |states[i].lookups|
      && states[i].lookups[c].outcome.Some?
    ensures m < i && labels[m].FinishLookup? && labels[m].c == c
    ensures states[i].lookups[c].outcome == Some(Decide(p.cfg, labels[m].a, labels[m].aaaa))
  {
    assert Steps(p, states, labels, i - 1);
    if labels[i - 1].FinishLookup? && labels[i - 1].c == c {
      m := i - 1;
    } else {
      assert c < |states[i - 1].lookups|;
      m := OutcomeDecided(p, states, labels, i - 1, c);
    }
  }

  /** No A query answered before step i gave its lookup an IPv6 address. */
  ghost predicate RepliesAreIpv4(labels: seq<Label>, i: nat)
    requires i <= |labels|
  {
    forall m :: 0 <= m < i && labels[m].FinishLookup? ==> !YieldsIpv6(labels[m].a)
  }

  lemma PublishedIpv4(p: Settings, states: seq<State>, labels: seq<Label>, i: nat, m: nat, key: string, ip: Addr,
                      ttl: int)
    requires ValidRun(p, states, labels) && i < |states| && p.cfg.ipv4Only && RepliesAreIpv4(labels, i)
    requires m < i && Publishes(states, labels, m, key, ip, ttl)
    ensures IsIpv4(ip)
  {
    var c := labels[m].c;
    var d := OutcomeDecided(p, states, labels, m, c);
    assert !YieldsIpv6(labels[d].a);
    if p.cfg.servers != [] {
      Ipv6OutcomeIff(p.cfg, labels[d].a, labels[d].aaaa);
    }
  }

  /** Under -ipv4-only no IPv6 address is ever cached or returned, by any path, unless such a reply came. */
  lemma Ipv4OnlyThroughout(p: Settings, states: seq<State>, labels: seq<Label>, i: nat)
    requires ValidRun(p, states, labels) && i < |states| && p.cfg.ipv4Only && RepliesAreIpv4(labels, i)
    ensures forall k :: k in states[i].mem.cache ==> IsIpv4(states[i].mem.cache[k].ip)
    ensures forall t :: t in states[i].callers && states[i].callers[t].Returned() && states[i].callers[t].result.Ok? ==>
      match states[i].callers[t].result.target
      case Verbatim(host) => p.parse(host).Some? && IsIpv4(p.parse(host).value)
      case Ip(addr) => IsIpv4(addr)
      case EmptyTarget => false
  {
    var s := states[i];
    forall k | k in s.mem.cache ensures IsIpv4(s.mem.cache[k].ip) {
      var m := CachedLifetimes(p, states, labels, i, k);
      PublishedIpv4(p, states, labels, i, m, k, s.mem.cache[k].ip, s.mem.cache[k].expiry - states[m].now);
    }
    forall t | t in s.callers && s.callers[t].Returned() && s.callers[t].result.Ok?
      ensures match s.callers[t].result.target
        case Verbatim(host) => p.parse(host).Some? && IsIpv4(p.parse(host).value)
        case Ip(addr) => IsIpv4(addr)
        case EmptyTarget => false
    {
      if p.parse(s.callers[t].host).Some? {
        LiteralsPassThrough(p, states, labels, i, t);
      } else {
        ReturnedIpv4(p, states, labels, i, t);
      }
    }
  }

  lemma ReturnedIpv4(p: Settings, states: seq<State>, labels: seq<Label>, i: nat, t: nat)
    requires ValidRun(p, states, labels) && i < |states| && p.cfg.ipv4Only && RepliesAreIpv4(labels, i)
    requires t in states[i].callers && states[i].callers[t].Returned() && states[i].callers[t].result.Ok?
    requires p.parse(states[i].callers[t].host).None?
    ensures states[i].callers[t].result.target.Ip? && IsIpv4(states[i].callers[t].result.target.addr)
  {
    var m, key, ttl := ReturnedWasPublished(p, states, labels, i, t);
    PublishedIpv4(p, states, labels, i, m, key, states[i].callers[t].result.target.addr, ttl);
  }

  /** Every address a name resolves to was published at a step before its Resolve returned it. */
  lemma ReturnedWasPublished(p: Settings, states: seq<State>, labels: seq<Label>, i: nat, t: nat)
    returns (m: nat, key: string, ttl: int)
    requires ValidRun(p, states, labels) && i < |states|
    requires t in states[i].callers && states[i].callers[t].Returned() && states[i].callers[t].result.Ok?
    requires p.parse(states[i].callers[t].host).None?
    ensures states[i].callers[t].result.target.Ip? && m < i && key == ToLower(states[i].callers[t].host)
    ensures Publishes(states, labels, m, key, states[i].callers[t].result.target.addr, ttl)
  {
    InvHolds(p, states, labels, i);
    var s, c := states[i], states[i].callers[t];
    assert CallerOk(p, s, t, c);
    key := ToLower(c.host);
    if c.FromCall? && s.lookups[c.call].outcome.value.Resolved? {
      assert LookupOk(p, s, c.call);
      m := Reached(p, states, labels, i, c.call, 2);
      ttl := s.lookups[c.call].outcome.value.ttl;
      RunIsLater(p, states, labels, m, i);
      assert Advances(states[m].lookups[c.call], s.lookups[c.call]);
    } else {
      var k := CheckedInRun(p, states, labels, i, t);
      m := SeenWasPublished(p, states, labels, k, t);
      ttl := c.seen.value.expiry - states[m].now;
    }
  }

  /** Every cached lifetime is within [minTTL, maxTTL], counted from a publication of the run. */
  lemma CachedLifetimes(p: Settings, states: seq<State>, labels: seq<Label>, i: nat, key: string) returns (m: nat)
    requires ValidRun(p, states, labels) && i < |states| && key in states[i].mem.cache
    ensures var e := states[i].mem.cache[key];
      && m < i && Publishes(states, labels, m, key, e.ip, e.expiry - states[m].now)
      && p.cfg.minTTL <= e.expiry - states[m].now <= p.cfg.maxTTL
  {
    InvHolds(p, states, labels, i);
    var e := states[i].mem.cache[key];
    var c :| 0 <= c < |states[i].lookups| && Sourced(states[i].lookups[c], key, e);
    assert LookupOk(p, states[i], c);
    m := Reached(p, states, labels, i, c, 2);
    RunIsLater(p, states, labels, m, i);
    assert Advances(states[m].lookups[c], states[i].lookups[c]);
  }

  // ------------------------------------------------------- how often lookups start

  /** Step j starts a new lookup for key on behalf of caller t. */
  ghost predicate Starts(states: seq<State>, labels: seq<Label>, j: nat, t: nat, key: string)
    requires |states| == |labels| + 1
  {
    && j < |labels| && labels[j] == Register(t) && t in states[j].callers
    && ToLower(states[j].callers[t].host) == key && key !in states[j].mem.inflight
  }

  /** A caller that has read the cache did so at a step of the run. */
  lemma {:induction false} ReadInRun(p: Settings, states: seq<State>, labels: seq<Label>, i: nat, t: nat)
    returns (r: nat)
    requires ValidRun(p, states, labels) && i < |states| && t in states[i].callers
    requires states[i].callers[t].HasRead? || PastCheck(states[i].callers[t])
    ensures r < i && labels[r] == ReadCache(t)
    ensures t in states[r + 1].callers
      && states[r + 1].callers[t] == HasRead(states[i].callers[t].host, states[i].callers[t].seen)
    ensures states[i].callers[t].seen == Cached(states[r].mem.cache, ToLower(states[i].callers[t].host))
  {
    assert Steps(p, states, labels, i - 1);
    if labels[i - 1] == ReadCache(t) {
      r := i - 1;
    } else {
      r := ReadInRun(p, states, labels, i - 1, t);
    }
  }

  /** The key is cached, with an expiry no earlier than floor. */
  ghost predicate KeepsUntil(s: State, key: string, floor: int) {
    key in s.mem.cache && floor <= s.mem.cache[key].expiry
  }

  lemma PublishSetsFloor(p: Settings, s: State, c: nat)
    requires Inv(p, s) && Enabled(s, Publish(c)) && s.lookups[c].outcome.value.Resolved?
    ensures KeepsUntil(Apply(p, s, Publish(c)), s.lookups[c].key, s.now + p.cfg.minTTL)
  {
    assert LookupOk(p, s, c);
  }

  lemma StepKeepsFloor(p: Settings, s: State, l: Label, key: string, floor: int)
    requires Inv(p, s) && Enabled(s, l) && KeepsUntil(s, key, floor) && floor <= s.now + p.cfg.minTTL
    ensures KeepsUntil(Apply(p, s, l), key, floor)
  {
    if l.Publish? && s.lookups[l.c].outcome.value.Resolved? {
      PublishSetsFloor(p, s, l.c);
    }
  }

  /** Once an answer is published its key stays cached, with an expiry at least minTTL past that moment. */
  lemma {:induction false} ExpiryFloor(p: Settings, states: seq<State>, labels: seq<Label>, m: nat, i: nat,
                                      key: string, ip: Addr, ttl: int)
    requires ValidRun(p, states, labels) && m < i < |states| && Publishes(states, labels, m, key, ip, ttl)
    ensures KeepsUntil(states[i], key, states[m].now + p.cfg.minTTL)
    decreases i
  {
    assert Steps(p, states, labels, i - 1);
    InvHolds(p, states, labels, i - 1);
    if m == i - 1 {
      PublishSetsFloor(p, states[m], labels[m].c);
    } else {
      ExpiryFloor(p, states, labels, m, i - 1, key, ip, ttl);
      RunIsLater(p, states, labels, m, i - 1);
      StepKeepsFloor(p, states[i - 1], labels[i - 1], key, states[m].now + p.cfg.minTTL);
    }
  }

  /**
   Every new lookup is justified by its starter's own cache read, which found no entry or
   one that had expired by its check; and it starts no sooner than minTTL after any earlier
   publication for the key, unless that publication fell between the starter's cache read
   and its registration, when the resolver's lock is not held.
   */
  lemma LookupsAreJustified(p: Settings, states: seq<State>, labels: seq<Label>, j: nat, t: nat, key: string)
    returns (read: nat, check: nat)
    requires ValidRun(p, states, labels) && Starts(states, labels, j, t, key)
    ensures read < check < j && labels[read] == ReadCache(t) && labels[check] == CheckExpiry(t)
    ensures key in states[read].mem.cache ==> states[read].mem.cache[key].expiry <= states[check].now
    ensures forall m, ip, ttl :: 0 <= m < j && Publishes(states, labels, m, key, ip, ttl) ==>
        states[m].now + p.cfg.minTTL <= states[j].now || read < m
  {
    assert Steps(p, states, labels, j);
    InvHolds(p, states, labels, j);
    assert CallerOk(p, states[j], t, states[j].callers[t]);
    check := CheckedInRun(p, states, labels, j, t);
    read := ReadInRun(p, states, labels, check, t);
    forall m, ip, ttl | 0 <= m < j && Publishes(states, labels, m, key, ip, ttl) && m <= read
      ensures states[m].now + p.cfg.minTTL <= states[j].now
    {
      ExpiryFloor(p, states, labels, m, read, key, ip, ttl);
    }
  }

  lemma Extend(p: Settings, states: seq<State>, labels: seq<Label>, l: Label, next: State)
    requires IsRun(p, states, labels) && Enabled(states[|labels|], l) && next == Apply(p, states[|labels|], l)
    ensures IsRun(p, states + [next], labels + [l])
  {
    var more, longer := states + [next], labels + [l];
    forall i | 0 <= i < |longer| ensures Steps(p, more, longer, i) {
      if i < |labels| {
        assert Steps(p, states, labels, i);
      }
    }
  }

  /** A caller that has just entered reads an empty cache and finds it has to look the name up. */
  lemma MissesEmptyCache(p: Settings, states: seq<State>, labels: seq<Label>, t: nat, host: string)
    returns (states': seq<State>, labels': seq<Label>)
    requires IsRun(p, states, labels) && p.parse(host).None?
    requires var s := states[|labels|]; t !in s.callers && s.mem.cache == map[]
    ensures IsRun(p, states', labels') && labels' == labels + [Enter(t, host), ReadCache(t), CheckExpiry(t)]
    ensures var s := states[|labels|]; states'[|labels'|] == WithCaller(s, t, Missed(host, None, s.now))
  {
    var s := states[|labels|];
    var s1 := WithCaller(s, t, Entered(host));
    var s2 := WithCaller(s, t, HasRead(host, None));
    var s3 := WithCaller(s, t, Missed(host, None, s.now));
    assert s1.callers[t := HasRead(host, None)] == s2.callers;
    assert s2.callers[t := Missed(host, None, s.now)] == s3.callers;
    Extend(p, states, labels, Enter(t, host), s1);
    var labels1 := labels + [Enter(t, host)];
    Extend(p, states + [s1], labels1, ReadCache(t), s2);
    var labels2 := labels1 + [ReadCache(t)];
    Extend(p, states + [s1] + [s2], labels2, CheckExpiry(t), s3);
    states', labels' := states + [s1] + [s2] + [s3], labels2 + [CheckExpiry(t)];
  }

  /** The first lookup ever, run to its publication without the clock moving. */
  lemma FirstLookupPublishes(p: Settings, states: seq<State>, labels: seq<Label>, t: nat, host: string, reply: Reply)
    returns (states': seq<State>, labels': seq<Label>)
    requires IsRun(p, states, labels)
    requires var s := states[|labels|];
      s.mem == Shared(map[], map[], []) && s.lookups == [] && t in s.callers
        && s.callers[t] == Missed(host, None, s.now)
    ensures IsRun(p, states', labels') && |labels'| == |labels| + 3 && labels'[|labels| + 2] == Publish(0)
    ensures var o := Decide(p.cfg, reply, reply);
      var s, pub, end := states[|labels|], states'[|labels| + 2], states'[|labels| + 3];
      && pub.lookups == [Lookup(ToLower(host), host, Looked, Some(o), s.now)] && pub.now == end.now == s.now
      && end.mem.inflight == map[] && end.callers == s.callers[t := Waiting(host, None, s.now, 0)]
  {
    var s := states[|labels|];
    var s1 := Apply(p, s, Register(t));
    Extend(p, states, labels, Register(t), s1);
    var states1, labels1 := states + [s1], labels + [Register(t)];
    var s2 := Apply(p, s1, FinishLookup(0, reply, reply));
    Extend(p, states1, labels1, FinishLookup(0, reply, reply), s2);
    var states2, labels2 := states1 + [s2], labels1 + [FinishLookup(0, reply, reply)];
    var s3 := Apply(p, s2, Publish(0));
    Extend(p, states2, labels2, Publish(0), s3);
    states', labels' := states2 + [s3], labels2 + [Publish(0)];
  }

  /** The exception is real: two callers that read an empty cache can start two lookups back to back. */
  lemma GapAllowsEarlyLookup()
    returns (p: Settings, states: seq<State>, labels: seq<Label>, m: nat, j: nat, key: string, ip: Addr)
    ensures ValidRun(p, states, labels) && m < j
    ensures Publishes(states, labels, m, key, ip, p.cfg.minTTL) && Starts(states, labels, j, 1, key)
    ensures states[j].now < states[m].now + p.cfg.minTTL
  {
    var host, reply := "a", Answers([Answer(V4(1), 0)]);
    p, key, ip := Settings(Config(["10.0.0.1"], 1, 300, 3600, false), _ => None), ToLower(host), V4(1);
    states, labels := [State(0, Shared(map[], map[], []), [], map[], {})], [];
    states, labels := MissesEmptyCache(p, states, labels, 0, host);
    states, labels := MissesEmptyCache(p, states, labels, 1, host);
    states, labels := FirstLookupPublishes(p, states, labels, 0, host, reply);
    m, j := 8, 9;
    var last := states[9];
    assert last.callers[1] == Missed(host, None, 0);
    var next := Apply(p, last, Register(1));
    Extend(p, states, labels, Register(1), next);
    states, labels := states + [next], labels + [Register(1)];
  }

  // ------------------------------------------------- once resolved, always resolvable

  /** A Resolve that reads the cache after its name was first published never fails. */
  lemma OnceResolvedAlwaysResolvable(p: Settings, states: seq<State>, labels: seq<Label>,
                                     m: nat, i: nat, j: nat, t: nat, key: string, ip: Addr, ttl: int)
    requires ValidRun(p, states, labels) && m < i < j < |states| && i < |labels|
    requires Publishes(states, labels, m, key, ip, ttl)
    requires labels[i] == ReadCache(t) && t in states[j].callers && states[j].callers[t].Returned()
    requires ToLower(states[j].callers[t].host) == key
    ensures states[j].callers[t].result.Ok?
  {
    InvHolds(p, states, labels, j);
    assert CallerOk(p, states[j], t, states[j].callers[t]);
    if p.parse(states[j].callers[t].host).None? {
      var r := ReadInRun(p, states, labels, j, t);
      ReadsOnce(p, states, labels, i, r, t);
      ExpiryFloor(p, states, labels, m, i, key, ip, ttl);
    } else {
      EnteredBeforeRead(p, states, labels, i, j, t);
    }
  }

  function Progress(c: Caller): nat {
    if c.Entered? then 0 else if c.HasRead? then 1 else 2
  }

  /** A caller never goes back to reading the cache, and keeps its host. */
  lemma {:induction false} CallersAdvance(p: Settings, states: seq<State>, labels: seq<Label>, i: nat, j: nat, t: nat)
    requires ValidRun(p, states, labels) && i <= j < |states| && t in states[i].callers
    ensures t in states[j].callers && states[j].callers[t].host == states[i].callers[t].host
    ensures Progress(states[i].callers[t]) <= Progress(states[j].callers[t])
  {
    if i < j {
      CallersAdvance(p, states, labels, i, j - 1, t);
      assert Steps(p, states, labels, j - 1);
    }
  }

  lemma ReadsOnce(p: Settings, states: seq<State>, labels: seq<Label>, i: nat, j: nat, t: nat)
    requires ValidRun(p, states, labels) && i < |labels| && j < |labels|
    requires labels[i] == labels[j] == ReadCache(t)
    ensures i == j
  {
    if i != j {
      var first, second := if i < j then i else j, if i < j then j else i;
      assert Steps(p, states, labels, first) && Steps(p, states, labels, second);
      CallersAdvance(p, states, labels, first + 1, second, t);
    }
  }

  lemma EnteredBeforeRead(p: Settings, states: seq<State>, labels: seq<Label>, i: nat, j: nat, t: nat)
    requires ValidRun(p, states, labels) && i < |labels| && i < j < |states| && labels[i] == ReadCache(t)
    ensures t in states[j].callers && p.parse(states[j].callers[t].host).None?
  {
    assert Steps(p, states, labels, i);
    InvHolds(p, states, labels, i);
    assert CallerOk(p, states[i], t, states[i].callers[t]);
    CallersAdvance(p, states, labels, i, j, t);
  }
}
