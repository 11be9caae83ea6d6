/**
 The resolver's mutable objects. Each method is one critical section of the program, or one
 use of a lookupCall by the goroutine that owns it, and is proved to change the shared memory
 exactly as the corresponding step of the transition system in SingleFlight does.
 */
module Resolver {
  import opened Text
  import opened Addresses
  import opened Dns
  import opened SingleFlight

  class LookupCall {
    const id: nat
    var ip: Option<Addr>
    var err: Option<LookupError>
    var done: bool

    constructor (id: nat)
      ensures this.id == id && View() == NEW_CALL
    {
      this.id := id;
      ip, err, done := None, None, false;
    }

    function View(): Call
      reads this
    {
      Call(ip, err, done)
    }
  }

  class CachingResolver {
    var cache: map<string, Entry>
    var inflight: map<string, LookupCall>
    /** Every call ever registered, in order: a call's id is its position. */
    ghost var registry: seq<LookupCall>
    var registered: nat

    ghost predicate Valid()
      reads this
    {
      && registered == |registry|
      && (forall i :: 0 <= i < |registry| ==> registry[i].id == i)
      && (forall k :: k in inflight ==> inflight[k] in registry)
    }

    ghost function View(): Shared
      reads this, registry
    {
      var calls := registry;
      Shared(cache, map k | k in inflight :: inflight[k].id,
             seq(|calls|, i requires 0 <= i < |calls| reads calls => calls[i].View()))
    }

    constructor ()
      ensures Valid() && View() == Shared(map[], map[], [])
    {
      cache, inflight, registry, registered := map[], map[], [], 0;
    }

    /** The cache read at the start of Resolve. */
    method ReadCache(key: string) returns (entry: Option<Entry>)
      ensures entry == Cached(cache, key)
    {
      entry := if key in cache then Some(cache[key]) else None;
    }

    /** The critical section of lookupShared. */
    method Join(key: string) returns (call: LookupCall, running: bool)
      requires Valid()
      modifies this
      ensures Valid() && old(registry) <= registry && call in registry
      ensures View() == RegisterOrJoin(old(View()), key)
      ensures call.id == CallFor(old(View()), key)
      ensures running == (key in old(inflight)) && (running ==> call == old(inflight[key]))
      ensures !running ==> fresh(call) && call.View() == NEW_CALL
    {
      running := key in inflight;
      if running {
        call := inflight[key];
      } else {
        call := new LookupCall(registered);
        inflight := inflight[key := call];
        registry, registered := registry + [call], registered + 1;
      }
    }

    /** The critical section that ends a lookup. */
    method Publish(key: string, o: Outcome, now: int)
      requires Valid()
      modifies this
      ensures Valid() && registry == old(registry)
      ensures View() == PublishOutcome(old(View()), key, o, now)
    {
      if o.Resolved? {
        cache := cache[key := Entry(o.ip, now + o.ttl)];
      }
      inflight := inflight - {key};
    }

    method WriteResult(call: LookupCall, o: Outcome)
      requires Valid() && call in registry
      modifies call
      ensures call.View() == WithResult(old(call.View()), o)
      ensures View() == old(View()).(calls := old(View()).calls[call.id := call.View()])
    {
      if o.Resolved? {
        call.ip, call.err := Some(o.ip), None;
      } else {
        call.ip, call.err := None, Some(o.error);
      }
    }

    method Close(call: LookupCall)
      requires Valid() && call in registry
      modifies call
      ensures call.View() == old(call.View()).(done := true)
      ensures View() == old(View()).(calls := old(View()).calls[call.id := call.View()])
    {
      call.done := true;
    }

    /**
     The lookup goroutine of a call registered for key, with nothing running beside it; tick is
     the clock it publishes by. Its waiters' channel ends closed, over the answer the cache got.
     */
    method RunLookup(call: LookupCall, key: string, host: string, cfg: Config, net: Network, start: int, tick: int)
      returns (o: Outcome, end: int)
      requires Valid() && call in registry && call.View() == NEW_CALL && cfg.minTTL <= cfg.maxTTL
      modifies this, call
      ensures Valid() && registry == old(registry)
      ensures o == OutcomeOf(net, cfg, host, start) && Cacheable(cfg, o)
      ensures forall ip: Addr :: FirstAnswered(net, cfg, host, start, ip) ==>
        o.Resolved? && o.ip == ip && key in cache && cache[key].ip == ip
      ensures Silent(net) ==> o.Failed? && cache == old(cache)
      ensures o.Resolved? ==> WasAnswered(net, cfg, host, start, o.ip)
      ensures call.View() == Delivered(o)
      ensures View() == PublishOutcome(old(View()), key, o, tick).(calls := old(View()).calls[call.id := call.View()])
      ensures Respectful(net, start + Budget(cfg.timeout)) ==>
        start <= end && (end == start || end <= start + Budget(cfg.timeout))
    {
      o, end := Dns.Lookup(net, cfg, host, start);
      OutcomesAreCacheable(cfg, ReplyOf(ATries(net, cfg, host, start)), ReplyOf(AaaaTries(net, cfg, host, start)));
      ghost var before := View();
      Publish(key, o, tick);
      assert View().cache == CacheAfter(before.cache, key, o, tick);
      WriteResult(call, o);
      Close(call);
    }

    /**
     lookupShared, with nothing running beside it but the lookup it may start; impatient tells
     that its context ended first. A call that another Resolve registered and that is not
     finished cannot finish here, so only the context can end the wait for it.
     */
    method LookupShared(key: string, host: string, cfg: Config, net: Network, start: int, tick: int, impatient: bool)
      returns (ip: Option<Addr>, err: Option<ResolveError>)
      requires Valid() && cfg.minTTL <= cfg.maxTTL
      modifies this
      ensures Valid()
      ensures key in old(inflight) ==>
        (ip, err) == Awaited(old(inflight[key].View()), impatient) && View() == old(View())
      ensures key !in old(inflight) ==>
        var o := OutcomeOf(net, cfg, host, start);
        && Cacheable(cfg, o) && (ip, err) == Awaited(Delivered(o), impatient)
        && View() == Shared(CacheAfter(old(cache), key, o, tick), old(View()).inflight,
             old(View()).calls + [Delivered(o)])
    {
      ghost var before := View();
      var call, running := Join(key);
      if !running {
        var o, end := RunLookup(call, key, host, cfg, net, start, tick);
        JoinThenPublish(before, key, o, tick);
      }
      if call.done && !impatient {
        return call.ip, Lift(call.err);
      }
      return None, Some(ContextEnded);
    }

    /**
     Resolve; now is the clock of its expiry check, tick the one its lookup publishes by. A patient
     caller of a name that is neither fresh in the cache nor being looked up gets what the network
     answers: its first answer, an error or the expired entry if it never answers, and in any case
     no address that the network did not answer during the call.
     */
    method Resolve(p: Settings, host: string, net: Network, now: int, start: int, tick: int, impatient: bool)
      returns (r: Result)
      requires Valid() && p.cfg.minTTL <= p.cfg.maxTTL
      modifies this
      ensures Valid()
      ensures p.parse(host).Some? ==> r == LiteralResult(p.cfg, host, p.parse(host).value) && View() == old(View())
      ensures p.parse(host).None? ==>
        var key, seen := ToLower(host), Cached(old(cache), ToLower(host));
        && (seen.Some? ==> r.Ok?)
        && if seen.Some? && now < seen.value.expiry then r == Ok(Ip(seen.value.ip)) && View() == old(View())
           else if key in old(inflight) then
             var got := Awaited(old(inflight[key].View()), impatient);
             r == Settle(seen, got.0, got.1) && View() == old(View())
           else
             var o := OutcomeOf(net, p.cfg, host, start);
             var got := Awaited(Delivered(o), impatient);
             && Cacheable(p.cfg, o) && r == Settle(seen, got.0, got.1)
             && View() == Shared(CacheAfter(old(cache), key, o, tick), old(View()).inflight,
                  old(View()).calls + [Delivered(o)])
      ensures p.parse(host).None? && LooksUp(old(cache), old(inflight.Keys), ToLower(host), now) ==>
        var key, seen := ToLower(host), Cached(old(cache), ToLower(host));
        && (forall ip: Addr :: FirstAnswered(net, p.cfg, host, start, ip) ==>
              key in cache && cache[key].ip == ip && (!impatient ==> r == Ok(Ip(ip))))
        && (Silent(net) ==> cache == old(cache) && if seen.Some? then r == Ok(Ip(seen.value.ip)) else r.Err?)
        && (r.Ok? ==> r.target.Ip?)
        && (r.Ok? && (seen.None? || r.target.addr != seen.value.ip) ==>
              WasAnswered(net, p.cfg, host, start, r.target.addr))
    {
      var ip := p.parse(host);
      if ip.Some? {
        if IsLoopback(ip.value) {
          return Err(LoopbackLiteral);
        }
        if p.cfg.ipv4Only && !Unmap(ip.value).V4? {
          return Err(Ipv6Literal);
        }
        return Ok(Verbatim(host));
      }
      LookupMeans(net, p.cfg, host, start);
      var key := ToLower(host);
      var entry := ReadCache(key);
      if entry.Some? && now < entry.value.expiry {
        return Ok(Ip(entry.value.ip));
      }
      var resolved, err := LookupShared(key, host, p.cfg, net, start, tick, impatient);
      if err.Some? {
        if entry.Some? {
          return Ok(Ip(entry.value.ip));
        }
        return Err(err.value);
      }
      return Ok(if resolved.Some? then Ip(resolved.value) else EmptyTarget);
    }
  }

  /** The name has to be looked up: it is not fresh in the cache, and nobody is looking it up. */
  predicate LooksUp(cache: map<string, Entry>, inflight: set<string>, key: string, now: int) {
    key !in inflight && (key in cache ==> cache[key].expiry <= now)
  }

  /** A call as its waiters find it once its lookup has ended with o. */
  function Delivered(o: Outcome): Call {
    WithResult(NEW_CALL, o).(done := true)
  }

  /** The select at the end of lookupShared. */
  function Awaited(call: Call, impatient: bool): (Option<Addr>, Option<ResolveError>) {
    if call.done && !impatient then (call.ip, Lift(call.err)) else (None, Some(ContextEnded))
  }

  /** A lookup that ran from registration to its close leaves a cache entry, if any, and a finished call. */
  lemma JoinThenPublish(m: Shared, key: string, o: Outcome, tick: int)
    requires key !in m.inflight
    ensures var joined := RegisterOrJoin(m, key);
      PublishOutcome(joined, key, o, tick).(calls := joined.calls[|m.calls| := Delivered(o)])
        == Shared(CacheAfter(m.cache, key, o, tick), m.inflight, m.calls + [Delivered(o)])
  {
    assert m.inflight[key := |m.calls|] - {key} == m.inflight;
  }
}
