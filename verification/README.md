# vpnproxy: a verified model

vpnproxy relays TCP connections through a WireGuard tunnel. It reads the hostname a client is
after off the first bytes of the connection, resolves that name through the tunnel's own DNS
server, and splices the two streams together. This project models its stateful core in Dafny and
proves what that core guarantees.

| file | models |
|---|---|
| `Dns.dfy` | one lookup: retries over lossy UDP with growing timeouts and server rotation, which records of a reply count, the TTL clamp, the time budget (`resolver.go`) |
| `SingleFlight.dfy` | the single-flight cache as a transition system: any number of `Resolve` calls and detached lookups, a clock, arbitrary DNS replies, one step per critical section, and its invariant |
| `ResolverGuarantees.dfy` | what holds over all its runs: at most one lookup per key, delivery, provenance and freshness of answers, how often lookups start, stale answers |
| `Resolver.dfy` | the mutable `resolver` and `lookupCall` objects; each method changes the shared memory exactly as the transition system's step does |
| `Sni.dfy`, `SniGuarantees.dfy` | `parseSNI` over Go slices (backing array, offset, length), a ClientHello encoder, round trip, prefix stability, truncated input |
| `HttpHost.dfy`, `HttpHostGuarantees.dfy` | `parseHTTPHost`, printed requests, and when its answer is final |
| `Relay.dfy`, `RelayGuarantees.dfy` | `peekHostname`, the two copy loops of `relayConn` over the two sockets they share, interleaved at will, and what comes of a connection that opens with a ClientHello or with a plaintext request |
| `Uapi.dfy`, `UapiGuarantees.dfy` | `parsePeerStatuses` and `waitForHandshake`; a printer of status texts and its inverse |
| `InstallConfigs.dfy` | `writeConfigs` and `writeFileAtomic` over a file system whose every intermediate state is kept |
| `HostsFile.dfy`, `HostsFileGuarantees.dfy` | `run-with-hosts.sh`: tagged lines in `/etc/hosts`, and the script's life with interrupts, kills and re-runs |
| `ConfigDirs.dfy` | `runList` and `findConfig`, and when they agree |
| `Text.dfy`, `Addresses.dfy`, `Integers.dfy` | the parts of Go's `strings`, `sort` and `netip`, and the integer ranges, that the others use |

The environment is universally quantified everywhere. DNS servers and the network are a function from
queries (name, type, server, attempt and time) to any records at any time (`Dns.Network`), or, in the
transition system, a free choice in a step's label (`FinishLookup`); the WireGuard device and its clock are functions of the poll number and the time
(`Uapi.Device`); system calls succeed or fail at will, and a state that a crash could expose is any
element of `FileSystem.history`; signals and kills are steps of the hosts script. Times are
integers in nanoseconds.

Two settings come from callers and are preconditions: `minTTL <= maxTTL`, which main.go:114
establishes, and a non-empty server list for `queryDNSRetry`, which resolver.go:199 checks.

## Where the code and its documentation disagree

The model follows the code.

- README.md:362 says cached TTLs are clamped to 5s to 5min; resolver.go:84-85 sets 5min to 1h. The
  bounds are parameters here, so every result holds for both.
- relay.go:139-143 says that any out-of-range slice of a truncated ClientHello is reported as
  "couldn't parse". Go bounds `s[a:b]` by the capacity, not the length, and `peekHostname` passes the
  front of a 4096-byte buffer, so a hello that is cut off can yield a name with NULs in it:
  `RelayGuarantees.TruncatedNameAccepted` gives such an input. What the documentation describes is the
  parser with length-bounded slicing, `SniOf(data, true)`. `SniGuarantees.SlicingsAgreeIff` says, for any
  bytes, exactly when Go's parser does the same; `SniGuarantees.DocumentedIff` says it for the front of a
  well-formed hello in terms of how much was received, and `SniGuarantees.WrongNameIff` exactly when a
  wrong name is returned for one.
- relay.go:139-140 says that parseSNI extracts the server_name extension of a ClientHello. It reads the
  first entry of the name list only, and gives up if that is of another kind, while section 3 of RFC 6066
  lets entries of other kinds precede the host_name: `SniGuarantees.HostNameMissed` gives such an input,
  and `SniGuarantees.HostNameFoundIff` says exactly when the host that a hello names is found.
- run-with-hosts.sh:79-80 calls `sed -i ''` an edit in place that keeps the inode; sed writes a new file
  and renames it. The model takes its effect on the file's text as one step, which fits the latter.
- resolver.go:55-56 gives as the reason for `-ipv4-only` that an IPv6 answer would fail to dial. It skips
  the AAAA query, but the reply to an A query may carry an AAAA record, which is then used:
  `Dns.Ipv4OnlyFailsIff` says exactly when, and `ResolverGuarantees.Ipv4OnlyThroughout` that no run
  caches or returns an IPv6 address otherwise.

## Model

| member | source | states |
|---|---|---|
| SingleFlight.InvHolds | resolver.go:110-189 | in every state of every interleaving: lookups, their calls, the inflight table, the cache and all callers agree; each cache entry was published by a finished lookup of its key with its clamped TTL |
| SingleFlight.InvKept | resolver.go:121-188 | every single step, by any caller or lookup, keeps that invariant |
| SingleFlight.RunIsLater | resolver.go:171-181 | later states of a run keep earlier ones' cache keys, lookup outcomes and publication times; the clock never goes back |
| ResolverGuarantees.OneLookupPerKey | resolver.go:151-157 | in every reachable state at most one unpublished lookup per key, and the key's inflight entry is exactly that lookup's call |
| ResolverGuarantees.PublishDeletesOwnCall | resolver.go:171-176 | the delete that ends a lookup removes that lookup's own call, never a successor's, and no other key |
| ResolverGuarantees.AtMostOnce | resolver.go:171-179 | a lookup publishes, writes its result and closes its channel at most once each |
| ResolverGuarantees.Delivery | resolver.go:171-188 | whoever takes the done branch does so after publish, write and close, in that order; it reads the published outcome, the call has left the inflight table, and a success is already cached |
| ResolverGuarantees.WaitersAgree | resolver.go:183-185 | all waiters that take the done branch of a call see the same fields |
| ResolverGuarantees.WaiterCanFinish | resolver.go:160-188 | no waiter is ever stuck: from every reachable state its lookup's remaining steps and its own read can be taken, whatever DNS answers |
| ResolverGuarantees.Provenance | resolver.go:121-142 | a resolved name's address is fresh (published for the lower-cased name less than its clamped TTL before the check), or the joined lookup's, or an expired entry's, and the last, like an error, only after that lookup failed or the caller's context ended; an error is that lookup's own or the context's |
| ResolverGuarantees.ReadInRun | resolver.go:121-124 | the entry a caller goes on with is what the cache held under its lower-cased name at its own read step |
| ResolverGuarantees.SeenWasPublished | resolver.go:121-125 | that entry was published earlier in the run, for the caller's own key, with a lifetime within bounds |
| ResolverGuarantees.LiteralsPassThrough | resolver.go:111-119 | an IP literal is returned verbatim if and only if it is no loopback address and, under -ipv4-only, an IPv4 one; otherwise the error says which of the two it is |
| ResolverGuarantees.NoLoopbackAnywhere | resolver.go:112-142 | no loopback address is ever cached or returned, by the literal, cached, stale or fresh path |
| ResolverGuarantees.ReturnedWasPublished | resolver.go:121-142 | every address a name resolves to was published for that name at an earlier step |
| ResolverGuarantees.Ipv4OnlyThroughout | resolver.go:115-229 | under -ipv4-only every address cached or returned, by any path, is IPv4, unless an A query's reply began with an IPv6 address |
| ResolverGuarantees.CachedLifetimes | resolver.go:173-228 | every cached lifetime, counted from its publication, is within [minTTL, maxTTL] |
| ResolverGuarantees.ExpiryFloor | resolver.go:171-176 | a published key stays cached, and never with an expiry before its publication time plus minTTL |
| ResolverGuarantees.LookupsAreJustified | resolver.go:121-156 | every new lookup follows its starter's own read of an absent or expired entry, and starts at least minTTL after each earlier publication that is not between that read and the registration |
| ResolverGuarantees.GapAllowsEarlyLookup | resolver.go:124-151 | the exception is real: a run in which a second lookup starts at once, because a publish fell into the unlocked gap |
| ResolverGuarantees.OnceResolvedAlwaysResolvable | resolver.go:130-142 | a Resolve that reads the cache after its name's first publication never fails, whatever lookups and contexts do |
| Resolver.CachingResolver.constructor | resolver.go:89-100 | a new resolver has an empty cache and no lookup in flight |
| Resolver.CachingResolver.Join | resolver.go:151-157 | joins the key's running call or registers a fresh one, as the transition system's registration step does |
| Resolver.CachingResolver.Publish | resolver.go:171-176 | a success fills the cache with its expiry, and the key leaves the inflight table, as in the publish step |
| Resolver.CachingResolver.WriteResult | resolver.go:178 | exactly this call's address and error become the outcome's |
| Resolver.CachingResolver.Close | resolver.go:179 | exactly this call becomes done |
| Resolver.CachingResolver.RunLookup | resolver.go:160-180 | the whole goroutine: its outcome is what the network answers for the name: the first query's first address if there is one, an error if nothing is ever answered, and never an address that was not answered to a query of this lookup; that is what the cache gets and the waiters will read; and the end within the budget |
| Resolver.CachingResolver.LookupShared | resolver.go:150-189 | alone: joins without touching anything, or leaves the cache entry of what the network answers, an unchanged inflight table and a finished call, and returns what that call holds or the context's error |
| Resolver.CachingResolver.Resolve | resolver.go:110-143 | alone: literal, fresh, stale and failing paths, each with the state it leaves; a name that has to be looked up gives the first answer's address, which the cache then holds; if nothing is ever answered the expired entry or an error; and every other address it returns was answered during the call; a name that was cached never fails |
| Dns.Lookup | resolver.go:198-230 | the A query, and the AAAA query only after an empty A reply and without -ipv4-only; the outcome of their last replies; an answer to the first query with an address decides it, silence fails, and a success is the first address of a reply to a query it sent, for this name, to one of the servers, before the budget's end; and the end within the budget if the network respects its deadlines |
| Dns.OutcomeIff | resolver.go:198-230 | when each outcome arises: no servers; a failed A query, or a failed AAAA query after an empty A reply; no record in either; loopback; and a success only with the first address of the A reply or, without -ipv4-only and with an empty A reply, of the AAAA reply |
| Dns.LookupMeans | resolver.go:198-341 | the same in terms of the network alone: which answers decide a lookup, that silence fails it, and that a success was answered to one of its queries |
| Dns.OutcomeWasAnswered | resolver.go:198-341 | a successful outcome's address is the first address record of a response to a query for this name that this lookup sent |
| Dns.AnsweredAtOnce | resolver.go:206-229 | if the first A query is answered with an address record, the first such record decides the outcome |
| Dns.Ipv6OnlyHostResolves | resolver.go:209-229 | a host whose A query is answered without an address record is decided by its first AAAA query's first address record, if there is time left for it |
| Dns.QueryDnsRetry | resolver.go:247-265 | performs exactly the specified attempts, first success in rotation, each reporting what the network made of its query, and returns the last one's reply and end |
| Dns.TriesAreHonest | resolver.go:247-341 | every attempt sends the name and type asked for to the server in turn, waits its own timeout or to the context's end, and reports the address records the network answered, the empty list included, or a failure if it answered none |
| Dns.FirstAnswerIsFinal | resolver.go:252-255 | an answer to the first attempt, the empty list included, is the only attempt and is returned as it is |
| Dns.SendQuery | resolver.go:275-341 | one query: dial, the nearer of its own deadline and the context's, and then exactly the address records of the response, or a failure |
| Dns.FirstSuccessInRotation | resolver.go:247-265 | the attempts go round the servers, each begins when the previous one failed and inside the context, all but the last fail, and only a success, the attempt count or the context's end stops them |
| Dns.DistinctServersFirst | resolver.go:245-251 | the first min(n, k) attempts go to different servers |
| Dns.CollectAnswers | resolver.go:329-339 | exactly the address records, in order |
| Dns.AddressRecordsExact | resolver.go:329-339 | A and AAAA records count with their TTL in nanoseconds, any other record does not |
| Dns.AddressRecordsAppend | resolver.go:329-339 | and they are collected record by record, in order |
| Dns.FirstAnswer | resolver.go:329-339 | the first answer is the reply's first address record, whatever type was asked for |
| Dns.FirstRecordDecides | resolver.go:209-229 | the first address record of the A reply, or of the AAAA reply if the A reply has none, decides the outcome: its address with its own TTL or the nearest allowed one, or a loopback error; a failed A query ends the lookup |
| Dns.AnswersFitDuration | resolver.go:331 | each answer comes from an address record, and no 32-bit TTL overflows an int64 of nanoseconds (section 4.1.3 of RFC 1035) |
| Dns.OutcomesAreCacheable | resolver.go:220-229 | whatever the replies, a success is no loopback address and has a TTL within bounds |
| Dns.Ipv4OnlyNeedsTypedReplies | resolver.go:209-229 | -ipv4-only alone does not force an IPv4 answer: an input |
| Dns.Ipv4OnlyFailsIff | resolver.go:209-229 | it fails if and only if the first address record of the A reply is an AAAA record of an address neither loopback nor IPv4-mapped |
| Dns.TotalWaitClosedForm | resolver.go:102-107 | n attempts' timeouts add up to T n (n + 1) / 2 |
| Dns.BudgetIsTotalWait | resolver.go:105-107 | budget() is exactly the attempts' total wait, and its integer division is exact |
| Dns.TriesEndInTime | resolver.go:162-258 | attempts in a context never outlive it, given I/O that respects its deadlines |
| Dns.FirstQueryNotCutShort | resolver.go:303-307 | if only waiting takes time, the shared deadline shortens no attempt's own timeout |
| Sni.ParseSni | relay.go:144-195 | the parser's loop computes the recursive reading, panics included, and ends |
| Sni.ReadServerName | relay.go:180-190 | the reading of one server_name extension |
| Sni.SkipFields | relay.go:165-168 | the index over the fields before the extensions, panics included |
| Sni.SkipToExtensions | relay.go:165-174 | the block of the extensions behind them |
| SniGuarantees.SniOfEncoded | relay.go:144-195 | encoder inverse: of every well-formed ClientHello (sections 4.1.2, 4.2 and 5.1 of RFC 8446), with anything after it, exactly the name of the first entry of the first server_name extension if that is a host_name (section 3 of RFC 6066), and failure otherwise |
| SniGuarantees.HostNameFoundIff | relay.go:180-191 | the host that a whole hello names, its first host_name, is found if and only if no entry of another kind precedes it; otherwise parsing fails |
| SniGuarantees.HostNameMissed | relay.go:185-190 | a hello that names "ab" behind an entry of another kind, for which parseSNI fails |
| SniGuarantees.BareHelloFails | relay.go:165-171 | of a hello without any extensions, allowed before TLS 1.3, nothing is found, however much has been received |
| SniGuarantees.WalksEncoded | relay.go:176-193 | the walk over any encoded extensions finds exactly the leading host_name of the first server_name, in any buffer |
| SniGuarantees.SlicingsAgreeIff | relay.go:139-194 | for any bytes in any buffer, Go's capacity-bounded slicing and length-bounded slicing give the same result if and only if Go's parser fails or every length it follows stays inside its enclosing block and the bytes received |
| SniGuarantees.StableWhenContained | relay.go:119-194 | a name found without leaving any enclosing block or the bytes read is found in every extension of the stream and with any buffer tail, under Go's and under length-bounded slicing |
| SniGuarantees.SniOfTruncated | relay.go:119-194 | what Go's parser makes of any first n bytes of any hello in the zeroed buffer: exactly when it succeeds, and with what |
| SniGuarantees.DocumentedIff | relay.go:139-194 | it does what it would with every slice beyond the received bytes failing if and only if the record is whole, or too long for the buffer, or cut off before the name list's length |
| SniGuarantees.RightNameIff | relay.go:119-194 | it returns the host that the hello names if and only if no entry of another kind precedes the name, the whole name is among the bytes read and the whole record would have fitted the buffer |
| SniGuarantees.WrongNameIff | relay.go:119-194 | it returns a name that is not the hello's if and only if it succeeds, by the condition of SniOfTruncated, and the leading host_name is not among the bytes read or there is none |
| SniGuarantees.WalkOverZeros | relay.go:176-193 | a walk that begins where no extension's data was received finds nothing |
| SniGuarantees.OnlyFromClientHello | relay.go:145-163 | only a handshake record that carries a ClientHello yields a name, under either slicing |
| RelayGuarantees.SniffOfHello | relay.go:119-137 | the hostname of a connection that opens with a hello, after any first read: the server name as far as received, or else parseHTTPHost's finding |
| RelayGuarantees.SniffOfWholeHello | relay.go:119-137 | after a first read of the whole hello: the leading host_name, which is the host it names unless an entry of another kind comes first, or else parseHTTPHost's finding |
| RelayGuarantees.SniffOfPlaintext | relay.go:119-137 | of a connection that does not open with a handshake record: parseHTTPHost's finding, and no name if no line names the Host field |
| RelayGuarantees.SniffOfRequest | relay.go:119-137 | of a plaintext request whose first Host line has been read: the host that line names |
| RelayGuarantees.TruncatedNameAccepted | relay.go:119-188 | a hello for "ab" whose first read misses one byte gives the hostname "a" and a NUL |
| HttpHost.ParseHttpHost | relay.go:202-215 | the loop returns the first Host header's host, and fails if that is empty or there is none |
| HttpHost.SplitAtCrlf | relay.go:203 | splitting at CRLF distributes over texts joined by a CRLF |
| HttpHost.SplitExtended | relay.go:203 | later bytes only change the last, unterminated line |
| HttpHostGuarantees.HostOfRequest | relay.go:202-215 | encoder inverse: the host of the first Host line, with or without port, any letter case and whitespace (section 7.2 of RFC 9110, section 5 of RFC 9112); an IPv6 address loses its brackets with a port and keeps them, being no IP literal then, without one |
| HttpHostGuarantees.HostIsReadAs | relay.go:209-211 | a port is stripped, and with it the brackets of an IPv6 address; anything without a port is left alone |
| HttpHostGuarantees.SplitHostPortIff | relay.go:209-211 | what a port is stripped from: exactly host:port with a host free of colons and brackets, or [host]:port, and exactly that host is left |
| HttpHostGuarantees.HostHeaderIff | relay.go:204-207 | a line decides the host if and only if it is host, in any letter case and with white space around it, then a colon and anything |
| HttpHostGuarantees.NoHostHeader | relay.go:202-215 | bytes without such a line yield no host |
| HttpHostGuarantees.Spellings | relay.go:203-211 | the four letters in either case, the six ASCII spaces and the separators, as byte values |
| HttpHostGuarantees.CompleteIsStable | relay.go:202-215 | once a Host line has been received with its CRLF, no further bytes change the answer |
| HttpHostGuarantees.StableIff | relay.go:202-215 | and that is the only case: otherwise some further bytes do change it |
| Relay.Conn.Read | relay.go:122 | a read takes some front of the unread bytes, how much is up to the network |
| Relay.PeekHostname | relay.go:119-137 | no byte is lost, repeated or reordered, at most 4096 are taken, the name is sniffed from exactly the replayed bytes, and the copy loops start from that split of the stream |
| Relay.SniffName | relay.go:130-136 | the SNI if there is one, else the Host header, else no name |
| Relay.EventConserves | relay.go:89-104 | every read, write, failure and half-close keeps each taken byte accounted for |
| Relay.RunIsSound | relay.go:89-106 | so does every interleaving of both directions; a write half is closed exactly by the direction into it, and no read half before both directions are done |
| Relay.StreamsConserved | relay.go:89-109 | at every point each side has received a prefix of what the other sent, peeked bytes once and first; the counters are the lengths; an EOF without error means all of it |
| Relay.CanFinish | relay.go:91-106 | once its source has ended, which is the sender's part, a copying direction can always read it to the end, deliver all of it and half-close, by its own steps alone |
| Relay.HalfCloseLeavesOther | relay.go:91-104 | so at any point of any run after the other direction's half-close, which closed one write half and nothing else |
| Relay.DirectionsIndependent | relay.go:91-104 | what a run does to one direction, the other's EOF, failures and half-close on the shared sockets included, is what its own steps do alone |
| Uapi.ParsePeerStatuses | wireguard.go:59-98 | the fold through the current-peer pointer equals reading each public_key block field by field |
| Uapi.AbsorbIsReading | wireguard.go:67-95 | a block's reading takes in one more line exactly as the loop's switch does |
| Uapi.HandshakeMeaning | wireguard.go:89-113 | some parsed peer has a handshake if and only if some peer's block holds a valid positive handshake time |
| Uapi.WaitForHandshake | wireguard.go:102-119 | succeeds if and only if one of its polls showed a handshake, gives up only after the deadline, and polls at most timeout/200ms + 2 times |
| Uapi.AnyHandshake | wireguard.go:109-113 | the search over peers is exact |
| UapiGuarantees.ParsesPrinted | wireguard.go:59-98 | printer inverse: any peers, printed after any device lines, are read back exactly, in order, field by field |
| UapiGuarantees.DetailsReadBack | wireguard.go:71-94 | one peer's printed fields read back as that peer |
| UapiGuarantees.ParseDecimal | wireguard.go:83-91 | printed counters and times parse back as the numbers they are |
| UapiGuarantees.UintValueIs | wireguard.go:83-87 | the counters' value for any text: the digits' number, or the largest 64-bit number once its leading digits are beyond that; 0 if anything else follows them or there are none |
| UapiGuarantees.ParseIntIs | wireguard.go:91 | a handshake time is read with or without a sign, within 64 bits and no further |
| UapiGuarantees.ParseIntOnly | wireguard.go:91 | and nothing but an optional sign and digits is read as one |
| UapiGuarantees.OneMoreField | wireguard.go:62-95 | one more key=value line after any text: public_key adds a blank peer, a known key sets its field of the last peer, any other key nothing |
| UapiGuarantees.NoField | wireguard.go:62-66 | a line without = changes nothing |
| UapiGuarantees.StatusesJoined | wireguard.go:62-96 | what reading two texts in a row gives: the second's leading lines go to the first's last peer |
| UapiGuarantees.ConcatenationIff | wireguard.go:62-96 | that is the two texts' peers one after the other if and only if those leading lines change nothing |
| UapiGuarantees.Concatenation | wireguard.go:62-96 | in particular if the second text's first key=value line is public_key |
| InstallConfigs.WriteConfigs | vault.go:401-430 | no field and no valid set of fields changes anything, with the fault named; otherwise every state on the way shows a sorted prefix of the names installed, all of them on success |
| InstallConfigs.CheckFields | vault.go:405-414 | accepts exactly the secrets whose names and values are all valid, in whatever order it meets them |
| InstallConfigs.InstallAll | vault.go:420-428 | each state shows a prefix of the names installed; the name that failed bounds it |
| InstallConfigs.WriteFileAtomic | vault.go:432-450 | in every intermediate state, with any failure, the path holds its old file or the complete new one, and nothing else changes but temporary files |
| InstallConfigs.WriteTemp | vault.go:438-448 | the writes to the temporary file are visible nowhere else |
| InstallConfigs.OldOrNew | vault.go:420-450 | at every step, crashes included, each path holds what it held or its name's complete new content |
| InstallConfigs.InstalledWhole | vault.go:420-429 | an installed name's target holds its new file, whatever is installed after it |
| InstallConfigs.OthersKept | vault.go:420-429 | every other path keeps its file |
| InstallConfigs.TargetsDistinct | vault.go:397-425 | distinct valid names give distinct paths inside dir, none a temporary file's |
| InstallConfigs.RegionNames | vault.go:397 | the names the regular expression matches, character by character: a letter or digit, then also dots, underscores and hyphens |
| InstallConfigs.NewFileEnds | vault.go:421-438 | new content ends in a newline, adds at most that one byte, and is mode 0600 |
| HostsFile.Hosts.AddHostsEntry | run-with-hosts.sh:49-73 | the untagged lines as they were, then exactly the entries, the last line ended first if need be; no line without a '#' comes, goes or moves |
| HostsFile.Hosts.RemoveHostsEntry | run-with-hosts.sh:75-83 | exactly the lines without the marker stay, in order, so every line without a '#' does; a file without tagged lines is not touched |
| HostsFile.RemoveIsExact | run-with-hosts.sh:75-83 | every untagged line stays, in order, every tagged one goes, and a file without any is unchanged |
| HostsFile.ManagedIff | run-with-hosts.sh:23-81 | a line is tagged if and only if it is some text, the marker, and some text |
| HostsFile.UntouchedWithoutHash | run-with-hosts.sh:75-83 | a file with no '#' in any line is left as it is |
| HostsFile.HashFreeKept | run-with-hosts.sh:21-83 | neither adding nor removing takes, adds or moves a line without a '#' |
| HostsFile.EntryFields | run-with-hosts.sh:17-70 | an entry's three tab-separated fields are 127.0.0.1, the host and the marker |
| HostsFile.RemoveIdempotent | run-with-hosts.sh:75-83 | removing twice is removing once |
| HostsFile.AddIsExact | run-with-hosts.sh:49-73 | the untagged lines as they were, then exactly the entries, whatever was tagged before |
| HostsFile.AddThenRemove | run-with-hosts.sh:49-83 | restores a file without tagged lines, up to one final newline if it had none |
| HostsFileGuarantees.StepKeeps | run-with-hosts.sh:49-94 | every step of the script, partial adds, interrupts, kills and re-runs included, keeps the untagged lines |
| HostsFileGuarantees.HostsConserved | run-with-hosts.sh:49-94 | over any number of runs the untagged lines never change, nor do the lines without a '#', every trapped exit leaves no tagged line, and while vpnproxy runs the tagged lines are a tail of the script's own entries |
| HostsFileGuarantees.HostsRestored | run-with-hosts.sh:49-94 | over any number of runs, kills included, a trapped exit leaves a file without tagged lines as it was, up to one final newline if it had none |
| HostsFileGuarantees.UninterruptedRun | run-with-hosts.sh:85-90 | without interruption the script's steps do what one add does, and all entries are in place when vpnproxy starts |
| ConfigDirs.RunList | config.go:33-81 | fails exactly on an unreadable directory, or a missing one that was asked for; otherwise prints, strictly sorted and without duplicates, exactly the names listed in the directory asked for or, without one, in "." and the user's |
| ConfigDirs.SearchedIs | config.go:14-68 | the directories searched are the one asked for, or else "." and, if it is known, the user's |
| ConfigDirs.ListingWorksIff | config.go:52-60 | a directory asked for must be readable, one that was not asked for may be missing but not unreadable |
| ConfigDirs.RegionOfSuffix | config.go:61-67 | an entry stands for a region if and only if it is that non-empty name followed by .conf and no directory |
| ConfigDirs.AddRegions | config.go:61-68 | one directory contributes exactly the names of its .conf entries that are no directories |
| ConfigDirs.FindConfig | config.go:89-111 | the first search directory that has the file, the one asked for or else "." before the user's, or failure if none has |
| ConfigDirs.ListedMeans | config.go:52-80 | a name is listed if and only if some search directory has an entry for it that is no directory |
| ConfigDirs.FoundMeans | config.go:89-111 | a name is found if and only if some search directory has an entry for it that leads somewhere |
| ConfigDirs.AgreeIff | config.go:52-111 | listing and finding differ on a name if and only if all its entries are directories, or all are broken links |
| ConfigDirs.ListingsHaveADisk | config.go:54-107 | whatever the directories list, a disk fits the hypothesis of the two rows above, with "." found in every readable directory |
| ConfigDirs.WrittenAreListedAndFound | config.go:14-111 | after a successful writeConfigs into a search directory every written name is listed and found |
| ConfigDirs.ListingIsUnique | config.go:52-80 | a strictly sorted list of exactly the listed names can only be one |
| Text.SortStrings | config.go:74 | sort.Strings of distinct names: strictly sorted, the same names, and the only such sequence |
| Text.LessIff | config.go:74 | sort.Strings' order: a is below b where they first differ, or is a proper front of b |
| Text.HasSuffixIff | config.go:62-63 | a name has a suffix if and only if it is some text followed by it, which is what trimming leaves |
| Text.SameWhenLowered | resolver.go:121 | two names share a cache key if and only if they differ in the case of ASCII letters at most |
| Addresses.Ranges | resolver.go:112-115 | loopback is 127.0.0.0/8, plain or IPv4-mapped, and ::1; IPv4 is every plain or mapped address |

## Left out

- Sockets, UDP and TCP dialing, packing and unpacking of DNS messages and random query ids: one query is an oracle that fails or returns a list of records.
- Log output and error texts; errors are told apart by kind only.
- A context is represented by the time or the step at which it ends; explicit cancellation is the same step.
- Dns.Lookup: durations are unbounded integers, so the int64 overflow of an absurdly long -dns-timeout is not modelled.
- Dns.TriesEndInTime: assumes that I/O respects its deadlines and clocks do not go back; nothing is said of a network that does neither.
- Resolver.CachingResolver.Resolve: states what one call does with no other Resolve running beside it; all interleavings are covered by SingleFlight and ResolverGuarantees.
- Uapi.WaitForHandshake: assumes a clock that does not go back and sleeps of at least 200ms.
- SniGuarantees.RightNameIff: like WrongNameIff, for names that are not empty and hold no NUL, as every hostname is.
- Text is ASCII: no Unicode letter case or white space in strings.ToLower, strings.EqualFold and strings.TrimSpace.
- Go's own library (strings, sort, strconv, net.SplitHostPort, os, path/filepath) is modelled from its documented behaviour; netip.ParseAddr and netip.ParsePrefix are parameters.
- io.Copy's splice and ReadFrom shortcuts and the buffer size of the copy loops; connections that are not TCP, which CloseWrite skips.
- InstallConfigs.OldOrNew: FileSystem.history covers crashes of the process; writeFileAtomic never syncs the file, so after a crash of the system the rename may be on disk without the data.
- relayConn's early returns (no name and no fallback, failed resolution, failed dial) and its choice of the fallback target.
- The hosts script's warning about unrelated entries, a failing sed, and a printf cut off in mid-line; a line is appended in one step.
- File systems that ignore letter case, where two region names can share a file, and directories that can be read but not searched, where os.Stat fails on what os.ReadDir lists.
- The directories of user and configuration, flag parsing and usage texts of list; region names with path separators in findConfig, which os.Stat decides.
- tunnel_darwin.go, tunnel_windows.go, priv_darwin.go, priv_windows.go, bind_darwin.go: thin wrappers around system calls.
- Vault's HTTP API, OIDC login, path rewriting, token files and the browser.
- describePeers, logPeerStatus, routeInterface, parsePorts and main.go's other wiring: one-line loops, logging or flag handling.
- run-with-hosts.ps1 and run-with-hosts.bat repeat the shell script's protocol on Windows.
