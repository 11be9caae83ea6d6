/**
 The caching resolver as a transition system: any number of Resolve calls and detached
 lookups, interleaved at will. Each step is one mutex section, one use of the clock, one
 write to a shared lookupCall, or one branch of a select.
 */
module SingleFlight {
  import opened Text
  import opened Addresses
  import opened Dns

  // ----------------------------------------------------------- shared memory

  /** cacheEntry. */
  datatype Entry = Entry(ip: Addr, expiry: int)

  /** lookupCall: what its waiters can see. ip None and err None are Go's "" and nil. */
  datatype Call = Call(ip: Option<Addr>, err: Option<LookupError>, done: bool)

  /** The resolver's mutable fields, and every lookupCall ever allocated. */
  datatype Shared = Shared(cache: map<string, Entry>, inflight: map<string, nat>, calls: seq<Call>)

  const NEW_CALL := Call(None, None, false)

  /** The mutex section of Resolve: the entry under key, if there is one. */
  function Cached(cache: map<string, Entry>, key: string): Option<Entry> {
    if key in cache then Some(cache[key]) else None
  }

  /** The mutex section of lookupShared: join the key's call, or register a new one. */
  function RegisterOrJoin(m: Shared, key: string): Shared {
    if key in m.inflight then m
    else m.(inflight := m.inflight[key := |m.calls|], calls := m.calls + [NEW_CALL])
  }

  function CallFor(m: Shared, key: string): nat {
    if key in m.inflight then m.inflight[key] else |m.calls|
  }

  function CacheAfter(cache: map<string, Entry>, key: string, o: Outcome, now: int): map<string, Entry> {
    if o.Resolved? then cache[key := Entry(o.ip, now + o.ttl)] else cache
  }

  /** The mutex section that ends a lookup: fill the cache, leave the inflight table. */
  function PublishOutcome(m: Shared, key: string, o: Outcome, now: int): Shared {
    m.(cache := CacheAfter(m.cache, key, o, now), inflight := m.inflight - {key})
  }

  function WithResult(call: Call, o: Outcome): Call {
    if o.Resolved? then call.(ip := Some(o.ip), err := None) else call.(ip := None, err := Some(o.error))
  }

  // ------------------------------------------------------------- participants

  /** How far a lookup goroutine has come. */
  datatype Stage = Looking | Looked | Published | Written | Closed

  function Rank(s: Stage): nat {
    match s case Looking => 0 case Looked => 1 case Published => 2 case Written => 3 case Closed => 4
  }

  /** A lookup goroutine; publishedAt is the clock it used when it filled the cache. */
  datatype Lookup = Lookup(key: string, host: string, stage: Stage, outcome: Option<Outcome>, publishedAt: int)

  datatype Target = Verbatim(host: string) | Ip(addr: Addr) | EmptyTarget
  datatype ResolveError = LoopbackLiteral | Ipv6Literal | ContextEnded | LookupFailed(why: LookupError)
  datatype Result = Ok(target: Target) | Err(error: ResolveError)

  /** A Resolve call between two of its steps; seen is the cache entry it read. */
  datatype Caller =
    | Entered(host: string)
    | HasRead(host: string, seen: Option<Entry>)
    | Missed(host: string, seen: Option<Entry>, checkedAt: int)
    | Waiting(host: string, seen: Option<Entry>, checkedAt: int, call: nat)
    | FromLiteral(host: string, result: Result)
    | FromCache(host: string, seen: Option<Entry>, checkedAt: int, result: Result)
    | FromCall(host: string, seen: Option<Entry>, checkedAt: int, call: nat, result: Result)
    | GaveUp(host: string, seen: Option<Entry>, checkedAt: int, call: nat, result: Result)
  {
    predicate Returned() { FromLiteral? || FromCache? || FromCall? || GaveUp? }
  }

  datatype State = State(now: int, mem: Shared, lookups: seq<Lookup>, callers: map<nat, Caller>, ended: set<nat>)

  /** The resolver's settings; parse is netip.ParseAddr. */
  datatype Settings = Settings(cfg: Config, parse: string -> Option<Addr>)

  ghost predicate Init(s: State) {
    s.mem == Shared(map[], map[], []) && s.lookups == [] && s.callers == map[] && s.ended == {}
  }

  /** Every step, with the choices the environment makes in it. */
  datatype Label =
    | Tick(to: int)
    | Enter(t: nat, host: string)
    | EndContext(t: nat)
    | ReadCache(t: nat)
    | CheckExpiry(t: nat)
    | Register(t: nat)
    | FinishLookup(c: nat, a: Reply, aaaa: Reply)
    | Publish(c: nat)
    | WriteResult(c: nat)
    | Close(c: nat)
    | TakeDone(t: nat)
    | TakeContext(t: nat)

  predicate At(s: State, c: nat, stage: Stage) {
    c < |s.lookups| && c < |s.mem.calls| && s.lookups[c].stage == stage
      && (stage.Looking? || s.lookups[c].outcome.Some?)
  }

  predicate Enabled(s: State, l: Label) {
    match l
    case Tick(to) => s.now <= to
    case Enter(t, host) => t !in s.callers
    case EndContext(t) => true
    case ReadCache(t) => t in s.callers && s.callers[t].Entered?
    case CheckExpiry(t) => t in s.callers && s.callers[t].HasRead?
    case Register(t) => t in s.callers && s.callers[t].Missed?
    case FinishLookup(c, _, _) => At(s, c, Looking)
    case Publish(c) => At(s, c, Looked)
    case WriteResult(c) => At(s, c, Published)
    case Close(c) => At(s, c, Written)
    case TakeDone(t) => t in s.callers && s.callers[t].Waiting? && s.callers[t].call < |s.mem.calls|
                        && s.mem.calls[s.callers[t].call].done
    case TakeContext(t) => t in s.callers && s.callers[t].Waiting? && t in s.ended
  }

  /** Resolve's answer for an IP literal. */
  function LiteralResult(cfg: Config, host: string, a: Addr): Result {
    if IsLoopback(a) then Err(LoopbackLiteral)
    else if cfg.ipv4Only && !Unmap(a).V4? then Err(Ipv6Literal)
    else Ok(Verbatim(host))
  }

  /** Resolve's answer once lookupShared returned (ip, err): a stale entry beats an error. */
  function Settle(seen: Option<Entry>, ip: Option<Addr>, err: Option<ResolveError>): Result {
    if err.Some? then (if seen.Some? then Ok(Ip(seen.value.ip)) else Err(err.value))
    else Ok(if ip.Some? then Ip(ip.value) else EmptyTarget)
  }

  function Lift(err: Option<LookupError>): Option<ResolveError> {
    if err.Some? then Some(LookupFailed(err.value)) else None
  }

  function WithCaller(s: State, t: nat, c: Caller): State {
    s.(callers := s.callers[t := c])
  }

  function WithLookup(s: State, c: nat, l: Lookup): State
    requires c < |s.lookups|
  {
    s.(lookups := s.lookups[c := l])
  }

  function Apply(p: Settings, s: State, l: Label): State
    requires Enabled(s, l)
  {
    match l
    case Tick(to) => s.(now := to)
    case Enter(t, host) =>
      var lit := p.parse(host);
      WithCaller(s, t, if lit.Some? then FromLiteral(host, LiteralResult(p.cfg, host, lit.value)) else Entered(host))
    case EndContext(t) => s.(ended := s.ended + {t})
    case ReadCache(t) =>
      var host := s.callers[t].host;
      WithCaller(s, t, HasRead(host, Cached(s.mem.cache, ToLower(host))))
    case CheckExpiry(t) =>
      var c := s.callers[t];
      WithCaller(s, t, if c.seen.Some? && s.now < c.seen.value.expiry
                       then FromCache(c.host, c.seen, s.now, Ok(Ip(c.seen.value.ip)))
                       else Missed(c.host, c.seen, s.now))
    case Register(t) =>
      var c := s.callers[t];
      var key := ToLower(c.host);
      var joined := WithCaller(s.(mem := RegisterOrJoin(s.mem, key)), t,
                               Waiting(c.host, c.seen, c.checkedAt, CallFor(s.mem, key)));
      if key in s.mem.inflight then joined
      else joined.(lookups := s.lookups + [Lookup(key, c.host, Looking, None, s.now)])
    case FinishLookup(c, a, aaaa) =>
      WithLookup(s, c, s.lookups[c].(stage := Looked, outcome := Some(Decide(p.cfg, a, aaaa))))
    case Publish(c) =>
      var k := s.lookups[c];
      WithLookup(s.(mem := PublishOutcome(s.mem, k.key, k.outcome.value, s.now)), c,
                 k.(stage := Published, publishedAt := s.now))
    case WriteResult(c) =>
      var k := s.lookups[c];
      WithLookup(s.(mem := s.mem.(calls := s.mem.calls[c := WithResult(s.mem.calls[c], k.outcome.value)])), c,
                 k.(stage := Written))
    case Close(c) =>
      WithLookup(s.(mem := s.mem.(calls := s.mem.calls[c := s.mem.calls[c].(done := true)])), c,
                 s.lookups[c].(stage := Closed))
    case TakeDone(t) =>
      var c := s.callers[t];
      var call := s.mem.calls[c.call];
      WithCaller(s, t, FromCall(c.host, c.seen, c.checkedAt, c.call, Settle(c.seen, call.ip, Lift(call.err))))
    case TakeContext(t) =>
      var c := s.callers[t];
      WithCaller(s, t, GaveUp(c.host, c.seen, c.checkedAt, c.call, Settle(c.seen, None, Some(ContextEnded))))
  }

  /** A run: states[i] --labels[i]--> states[i + 1]. */
  ghost predicate IsRun(p: Settings, states: seq<State>, labels: seq<Label>) {
    && |states| == |labels| + 1
    && Init(states[0])
    && forall i :: 0 <= i < |labels| ==> Steps(p, states, labels, i)
  }

  ghost predicate Steps(p: Settings, states: seq<State>, labels: seq<Label>, i: nat)
    requires i < |labels| && |states| == |labels| + 1
  {
    Enabled(states[i], labels[i]) && states[i + 1] == Apply(p, states[i], labels[i])
  }

  // ----------------------------------------------------------- the invariant

  predicate Unpublished(l: Lookup) { Rank(l.stage) < 2 }

  /** Entry e is what lookup l published under key; its lifetime is l's clamped TTL. */
  predicate Sourced(l: Lookup, key: string, e: Entry) {
    l.key == key && !Unpublished(l) && l.outcome == Some(Resolved(e.ip, e.expiry - l.publishedAt))
  }

  ghost predicate HasSource(ls: seq<Lookup>, key: string, e: Entry) {
    exists c :: 0 <= c < |ls| && Sourced(ls[c], key, e)
  }

  /** A lookup, its shared call and the cache agree at every stage. */
  ghost predicate LookupOk(p: Settings, s: State, c: nat)
    requires |s.mem.calls| == |s.lookups| && c < |s.lookups|
  {
    var l, call := s.lookups[c], s.mem.calls[c];
    && l.key == ToLower(l.host)
    && (l.stage.Looking? <==> l.outcome.None?)
    && (l.outcome.Some? ==> Cacheable(p.cfg, l.outcome.value))
    && l.publishedAt <= s.now
    && (Unpublished(l) ==> l.key in s.mem.inflight && s.mem.inflight[l.key] == c)
    && (!Unpublished(l) && l.outcome.value.Resolved? ==> l.key in s.mem.cache)
    && (Rank(l.stage) < 3 ==> call == NEW_CALL)
    && (Rank(l.stage) >= 3 ==> call == WithResult(NEW_CALL, l.outcome.value).(done := l.stage.Closed?))
  }

  ghost predicate SeenOk(s: State, host: string, seen: Option<Entry>) {
    seen.Some? ==> HasSource(s.lookups, ToLower(host), seen.value)
  }

  ghost predicate MissOk(s: State, host: string, seen: Option<Entry>, checkedAt: int) {
    SeenOk(s, host, seen) && checkedAt <= s.now && (seen.Some? ==> seen.value.expiry <= checkedAt)
  }

  ghost predicate CallOk(s: State, host: string, call: nat) {
    call < |s.lookups| && s.lookups[call].key == ToLower(host)
  }

  ghost predicate CallerOk(p: Settings, s: State, t: nat, c: Caller) {
    match c
    case Entered(host) => p.parse(host).None?
    case HasRead(host, seen) => p.parse(host).None? && SeenOk(s, host, seen)
    case Missed(host, seen, at) => p.parse(host).None? && MissOk(s, host, seen, at)
    case Waiting(host, seen, at, call) => p.parse(host).None? && MissOk(s, host, seen, at) && CallOk(s, host, call)
    case FromLiteral(host, result) =>
      p.parse(host).Some? && result == LiteralResult(p.cfg, host, p.parse(host).value)
    case FromCache(host, seen, at, result) =>
      && p.parse(host).None? && SeenOk(s, host, seen) && at <= s.now
      && seen.Some? && at < seen.value.expiry && result == Ok(Ip(seen.value.ip))
    case FromCall(host, seen, at, call, result) =>
      && p.parse(host).None? && MissOk(s, host, seen, at) && CallOk(s, host, call)
      && s.lookups[call].stage.Closed? && s.lookups[call].outcome.Some?
      && var o := s.lookups[call].outcome.value;
         result == if o.Resolved? then Ok(Ip(o.ip)) else Settle(seen, None, Some(LookupFailed(o.error)))
    case GaveUp(host, seen, at, call, result) =>
      && p.parse(host).None? && MissOk(s, host, seen, at) && CallOk(s, host, call)
      && t in s.ended && result == Settle(seen, None, Some(ContextEnded))
  }

  ghost predicate Inv(p: Settings, s: State) {
    && |s.mem.calls| == |s.lookups|
    && (forall c :: 0 <= c < |s.lookups| ==> LookupOk(p, s, c))
    && (forall k :: k in s.mem.inflight ==>
          s.mem.inflight[k] < |s.lookups| && s.lookups[s.mem.inflight[k]].key == k
          && Unpublished(s.lookups[s.mem.inflight[k]]))
    && (forall k :: k in s.mem.cache ==> HasSource(s.lookups, k, s.mem.cache[k]))
    && (forall t :: t in s.callers ==> CallerOk(p, s, t, s.callers[t]))
  }

  /** What later states keep of earlier ones. */
  ghost predicate Later(s: State, s': State) {
    && s.now <= s'.now && s.ended <= s'.ended && |s.lookups| <= |s'.lookups|
    && s.mem.cache.Keys <= s'.mem.cache.Keys
    && forall c :: 0 <= c < |s.lookups| ==> Advances(s.lookups[c], s'.lookups[c])
  }

  predicate Advances(l: Lookup, l': Lookup) {
    && l'.key == l.key && l'.host == l.host && Rank(l.stage) <= Rank(l'.stage)
    && (l.outcome.Some? ==> l'.outcome == l.outcome)
    && (!Unpublished(l) ==> l'.publishedAt == l.publishedAt)
  }

  lemma SourceKept(ls: seq<Lookup>, ls': seq<Lookup>, key: string, e: Entry)
    requires HasSource(ls, key, e) && |ls| <= |ls'|
    requires forall c :: 0 <= c < |ls| ==> Advances(ls[c], ls'[c])
    ensures HasSource(ls', key, e)
  {
    var c :| 0 <= c < |ls| && Sourced(ls[c], key, e);
    assert Sourced(ls'[c], key, e);
  }

  lemma CallerKept(p: Settings, s: State, s': State, t: nat, c: Caller)
    requires Later(s, s') && CallerOk(p, s, t, c)
    ensures CallerOk(p, s', t, c)
  {
    if !c.Entered? && !c.FromLiteral? && c.seen.Some? {
      SourceKept(s.lookups, s'.lookups, ToLower(c.host), c.seen.value);
    }
  }

  lemma StepIsLater(p: Settings, s: State, l: Label)
    requires Inv(p, s) && Enabled(s, l)
    ensures Later(s, Apply(p, s, l))
  {
    var s' := Apply(p, s, l);
    forall c | 0 <= c < |s.lookups| ensures Advances(s.lookups[c], s'.lookups[c]) {
      assert LookupOk(p, s, c);
    }
  }

  /** A step that no lookup and no registration takes. */
  predicate OnlyCallers(l: Label) {
    l.Tick? || l.Enter? || l.EndContext? || l.ReadCache? || l.CheckExpiry? || l.TakeDone? || l.TakeContext?
  }

  /** Lookup c, if it exists after the step, agrees with its call and the cache. */
  ghost predicate OkAfter(p: Settings, s: State, l: Label, c: nat)
    requires Enabled(s, l)
  {
    var s' := Apply(p, s, l);
    |s'.mem.calls| == |s'.lookups| && (c < |s'.lookups| ==> LookupOk(p, s', c))
  }

  lemma CallersKeep(p: Settings, s: State, l: Label, c: nat)
    requires Inv(p, s) && Enabled(s, l) && OnlyCallers(l)
    ensures OkAfter(p, s, l, c)
  {
    assert c < |s.lookups| ==> LookupOk(p, s, c);
  }

  lemma RegisterKeeps(p: Settings, s: State, t: nat, c: nat)
    requires Inv(p, s) && Enabled(s, Register(t))
    ensures OkAfter(p, s, Register(t), c)
  {
    assert c < |s.lookups| ==> LookupOk(p, s, c);
  }

  lemma FinishKeeps(p: Settings, s: State, f: nat, a: Reply, aaaa: Reply, c: nat)
    requires p.cfg.minTTL <= p.cfg.maxTTL && Inv(p, s) && Enabled(s, FinishLookup(f, a, aaaa))
    ensures OkAfter(p, s, FinishLookup(f, a, aaaa), c)
  {
    OutcomesAreCacheable(p.cfg, a, aaaa);
    assert c < |s.lookups| ==> LookupOk(p, s, c);
  }

  lemma PublishKeeps(p: Settings, s: State, f: nat, c: nat)
    requires Inv(p, s) && Enabled(s, Publish(f))
    ensures OkAfter(p, s, Publish(f), c)
  {
    assert LookupOk(p, s, f) && (c < |s.lookups| ==> LookupOk(p, s, c));
  }

  lemma WriteKeeps(p: Settings, s: State, f: nat, c: nat)
    requires Inv(p, s) && Enabled(s, WriteResult(f))
    ensures OkAfter(p, s, WriteResult(f), c)
  {
    assert c < |s.lookups| ==> LookupOk(p, s, c);
  }

  lemma CloseKeeps(p: Settings, s: State, f: nat, c: nat)
    requires Inv(p, s) && Enabled(s, Close(f))
    ensures OkAfter(p, s, Close(f), c)
  {
    assert c < |s.lookups| ==> LookupOk(p, s, c);
  }

  /** Each step touches at most one lookup, and keeps it in agreement with its call and the cache. */
  lemma LookupKept(p: Settings, s: State, l: Label, c: nat)
    requires p.cfg.minTTL <= p.cfg.maxTTL && Inv(p, s) && Enabled(s, l)
    ensures OkAfter(p, s, l, c)
  {
    match l {
      case Register(t) => RegisterKeeps(p, s, t, c);
      case FinishLookup(f, a, aaaa) => FinishKeeps(p, s, f, a, aaaa, c);
      case Publish(f) => PublishKeeps(p, s, f, c);
      case WriteResult(f) => WriteKeeps(p, s, f, c);
      case Close(f) => CloseKeeps(p, s, f, c);
      case _ => CallersKeep(p, s, l, c);
    }
  }

  lemma InflightKept(p: Settings, s: State, l: Label)
    requires Inv(p, s) && Enabled(s, l)
    ensures var s' := Apply(p, s, l); forall k :: k in s'.mem.inflight ==>
      s'.mem.inflight[k] < |s'.lookups| && s'.lookups[s'.mem.inflight[k]].key == k
      && Unpublished(s'.lookups[s'.mem.inflight[k]])
  {
    if l.Publish? {
      assert LookupOk(p, s, l.c);
    }
  }

  lemma CacheKept(p: Settings, s: State, l: Label)
    requires Inv(p, s) && Enabled(s, l)
    ensures var s' := Apply(p, s, l); forall k :: k in s'.mem.cache ==> HasSource(s'.lookups, k, s'.mem.cache[k])
  {
    var s' := Apply(p, s, l);
    StepIsLater(p, s, l);
    forall k | k in s'.mem.cache ensures HasSource(s'.lookups, k, s'.mem.cache[k]) {
      if k in s.mem.cache && s'.mem.cache[k] == s.mem.cache[k] {
        SourceKept(s.lookups, s'.lookups, k, s.mem.cache[k]);
      } else {
        assert l.Publish? && Sourced(s'.lookups[l.c], k, s'.mem.cache[k]);
      }
    }
  }

  lemma CallersKept(p: Settings, s: State, l: Label)
    requires Inv(p, s) && Enabled(s, l)
    ensures var s' := Apply(p, s, l); forall t :: t in s'.callers ==> CallerOk(p, s', t, s'.callers[t])
  {
    var s' := Apply(p, s, l);
    StepIsLater(p, s, l);
    forall t | t in s'.callers ensures CallerOk(p, s', t, s'.callers[t]) {
      if t in s.callers {
        CallerKept(p, s, s', t, s.callers[t]);
        if s'.callers[t] != s.callers[t] && l.TakeDone? {
          assert LookupOk(p, s, s.callers[t].call);
        }
      }
    }
  }

  /** Every step, in every interleaving, keeps the invariant. */
  lemma InvKept(p: Settings, s: State, l: Label)
    requires p.cfg.minTTL <= p.cfg.maxTTL && Inv(p, s) && Enabled(s, l)
    ensures Inv(p, Apply(p, s, l))
  {
    LookupKept(p, s, l, 0);
    forall c | 0 <= c < |Apply(p, s, l).lookups| ensures LookupOk(p, Apply(p, s, l), c) {
      LookupKept(p, s, l, c);
    }
    InflightKept(p, s, l);
    CacheKept(p, s, l);
    CallersKept(p, s, l);
  }

  lemma {:induction false} InvHolds(p: Settings, states: seq<State>, labels: seq<Label>, i: nat)
    requires p.cfg.minTTL <= p.cfg.maxTTL && IsRun(p, states, labels) && i < |states|
    ensures Inv(p, states[i])
  {
    if i > 0 {
      InvHolds(p, states, labels, i - 1);
      assert Steps(p, states, labels, i - 1);
      InvKept(p, states[i - 1], labels[i - 1]);
    }
  }

  lemma {:induction false} RunIsLater(p: Settings, states: seq<State>, labels: seq<Label>, i: nat, j: nat)
    requires p.cfg.minTTL <= p.cfg.maxTTL && IsRun(p, states, labels) && i <= j < |states|
    ensures Later(states[i], states[j])
  {
    if i < j {
      RunIsLater(p, states, labels, i, j - 1);
      InvHolds(p, states, labels, j - 1);
      assert Steps(p, states, labels, j - 1);
      StepIsLater(p, states[j - 1], labels[j - 1]);
    }
  }
}
