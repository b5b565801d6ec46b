# A verified model of the port scanner's hard parts

The scanner's sockets do little; whether its output is right is decided by a few concurrent
protocols and algorithms. This project models those in Dafny and proves what they are for.
`dafny verify dfyconfig.toml` checks everything.

## What is modelled

**The scan** (`Scanner.dfy`, `ScanHistory.dfy`, `ScanGuarantees.dfy`). A producer, `Workers` workers, a bounded queue of
checks, a bounded channel of events, a draining consumer and one flag that only goes from live to
cancelled. Every communication or call of a goroutine is one move; a `select` whose arms are both
ready may take either; `Run` replays any list of moves, so a statement about `Run` is about every
interleaving. What a dial, a probe or a close gives is part of the move, hence arbitrary. The
invariant is conservation: each configured check is unsent, queued, with one worker, or reported. What
an event must say is stated from the moves alone, by an account of what its worker did.

**The proxy pool** (`ProxyPool.dfy`, `ProxyTunnel.dfy`, `PoolLinks.dfy`, `ScanThroughPool.dfy`,
`DiscoveryThroughPool.dfy`). `Pool` is the class
with its mutable `next` and `active`; runs of acquires and releases give the bounds on load. The
race of an HTTP or HTTPS proxy dial with its cancellation watcher is a second step machine. The other
files run the scan, and before it host discovery, through one pool: each worker's dials acquire, its
closes release, and a probe may have closed the socket before the worker does.

**Wire formats** (`DnsMessage.dfy`, `Ber.dfy`, `Kerberos.dfy`, `Ldap.dfy`, `Postgresql.dfy`). Each
reader is proved against a statement of the format that does not mention how it reads: the names of
sections 2.3.4 and 4.1.4 and the records of section 4.1.3 of RFC 1035, the lengths and integers of
sections 8.1.3, 8.3.2 and 10.1 of X.690, the AS-REQ of section 5.4.1 of RFC 4120, the BindResponse of
section 4.2.2 of RFC 4511. The DER writer and the BER reader are separate pieces of code and are
proved to undo each other.

**Targets, ports and the report** (`Targets.dfy`, `Dedupe.dfy`, `Report.dfy`, `ReportFilter.dfy`,
`Reporting.dfy`). Expansion loops over addresses of any width; an address is family, zone and number
and stands for its canonical string. The report's sort, filter and statistics are modelled as the
loops they are and composed with the scan, so that completeness and independence of scheduling
reach the printed document.

**Ordered fan-out** (`FanOut.dfy`, `Discovery.dfy`, `ReverseDns.dfy`). Two different worker pools, each
proved equal to a sequential map in every interleaving, and the decision that host discovery makes
about one target.

## Where the code does not do what one might expect

- `derWrap` writes at most two length octets, so an element of more than 65535 octets is written with
  a truncated length: `Ber.ReadUndoesWrap` and `Kerberos.RequestDecodes` give the exact limits (for an
  AS-REQ, a realm of 32698 octets).
- `derInteger` is right exactly on 0..65535 (`Ber.IntegerDecodes`).
- `readBERElement` takes lengths of at most five octets, although section 8.1.3 of X.690 allows more
  (`Ber.ReadsBer`).
- The check of an ErrorResponse is not that of PostgreSQL's protocol, in three ways. It accepts a
  payload without the zero that closes the field list (`Postgresql.MissingTerminatorIsAccepted`) and
  one with a field of type zero, which in the protocol ends the list
  (`Postgresql.TypeZeroIsAccepted`); it rejects a field with an empty value
  (`Postgresql.EmptyValueIsRejected`). `Postgresql.LayoutOfParsed` and `Postgresql.LayoutIsAccepted`
  prove that there is no other difference.
- The step cap of `dnsNameEnd` turns some other error into "chain is too long", never a success into an
  error.

## Model

| member | source | states |
|---|---|---|
| Scanner.New | internal/scanner/scanner.go:66-99 | rejects exactly the unusable configurations, each for a fault it has; never starts more workers than there are checks |
| Scanner.RunKeepsInv | internal/scanner/scanner.go:112-269 | after every interleaving each check is unsent, queued, held by one worker or reported; each terminal event has its own earlier Checking; what is lost is lost to a cancellation only |
| ScanHistory.EventsTellWhatHappened | internal/scanner/scanner.go:149-269 | the event a worker sends is about the pair it took, the k-th taken being the k-th configured; it is Checking first; then Open exactly if its dial succeeded, with that duration, the results of its probes and failed redials in order and whether a close failed, and Closed exactly if it failed, with that failure; nothing learnt after the cancellation is sent |
| ScanHistory.CancelledMeansCancel | cmd/go-port-scanner/main.go:231-239 | the context is done exactly when it was cancelled |
| ScanGuarantees.AllPairsIsProduct | internal/scanner/scanner.go:138-146 | the checks sent are Targets x Ports, repetitions counted |
| ScanGuarantees.AllPairsAt | internal/scanner/scanner.go:138-146 | they are sent host by host, each host's ports in order |
| ScanGuarantees.AllPairsLength | internal/scanner/scanner.go:106-109 | Checks() is their number |
| ScanGuarantees.LiveScanIsComplete | internal/scanner/scanner.go:112-218 | if the context is live when the event channel closes, the terminal events are exactly the configured checks, and so are the Checking events |
| ScanGuarantees.NothingIsReportedTwice | internal/scanner/scanner.go:149-218 | at every moment of every run, cancelled or not, no check is announced or reported more often than configured, each terminal event follows a Checking of its own, at most Workers are announced and unreported |
| ScanGuarantees.OpenEventsNameEveryProtocol | internal/scanner/scanner.go:191-260 | an Open event that is sent carries one result per protocol configured for its port, in order, also when dials for probes fail, and none if there is no such protocol |
| ScanGuarantees.ChannelsStaySafe | internal/scanner/scanner.go:112-147 | both channels stay within Workers, and when the events are closed the producer and every worker are through |
| ScanGuarantees.NothingIsSentAfterClose | internal/scanner/scanner.go:116-130 | however a run goes on after the close, nothing more is sent on either channel |
| ScanGuarantees.SomeMoveIsPossible | internal/scanner/scanner.go:112-269 | no reachable unfinished state is stuck |
| ScanGuarantees.EveryScanEnds | internal/scanner/scanner.go:112-269 | every run is bounded by a measure of its initial state and can go on until the consumer saw the channel close |
| ScanGuarantees.CancelledScanNeedsNoConsumer | internal/scanner/scanner.go:262-269 | a cancelled scan can go on to close its channel even if nobody receives any more, and without another check being sent or taken |
| ProxyPool.Pool.Acquire | internal/proxypool/pool.go:145-168 | takes the strategy's proxy, counts it, moves `next`; changes nothing else |
| ProxyPool.Pool.LeastLoaded | internal/proxypool/pool.go:153-161 | the candidate loop finds the first minimum in cyclic order from `next` |
| ProxyPool.Pool.Release | internal/proxypool/pool.go:170-177 | gives one connection back, never below zero |
| ProxyPool.TrackedConn.Close | internal/proxypool/pool.go:349-359 | closes the socket each time, releases the slot the first time only |
| ProxyPool.CeilingIsUnavoidable | internal/proxypool/pool.go:145-168 | some proxy carries at least total / n, rounded up, however the load is spread, so the bound below cannot be improved |
| ProxyPool.LeastConnectionsIsOptimal | internal/proxypool/pool.go:145-177 | over every run of acquires and releases from a fresh pool of n, the highest load any proxy reaches is exactly the peak total / n, rounded up |
| ProxyPool.ActiveCountsHeld | internal/proxypool/pool.go:145-177 | under every strategy `active` counts acquires minus releases |
| ProxyPool.RoundRobinRotates | internal/proxypool/pool.go:163-166 | the k-th acquire takes proxy k mod n, whatever is released in between |
| ProxyPool.LeastConnectionsRotates | internal/proxypool/pool.go:153-161 | with nothing released, least_connections chooses as round robin does, and the load is even |
| ProxyTunnel.EveryRaceEndsCleanly | internal/proxypool/pool.go:289-398 | in every race with cancellation a dial closes its connection exactly once and releases once, or returns it open with its slot held |
| ProxyTunnel.OpenIffGranted | internal/proxypool/pool.go:110-338 | a race returns the connection exactly when the context was live from the start until the pool looked at it, the CONNECT exchange succeeded and the deadline was cleared |
| ProxyTunnel.EndpointLooksAtContext | internal/proxypool/pool.go:320-337 | the endpoint's dial clears the deadline and hands its connection on only if the context was live when it looked after the handshake |
| ProxyTunnel.ReturnedConnectionStaysOpen | internal/proxypool/pool.go:110-143 | neither the pool's deferred cancel nor a later cancellation closes a returned connection |
| ProxyTunnel.WaitIsServed | internal/proxypool/pool.go:361-379 | stopWatching never waits for a result that will not come, and waits only once the context is done |
| ProxyTunnel.EveryRaceEnds | internal/proxypool/pool.go:289-398 | no race takes more than 14 moves or gets stuck |
| ScanThroughPool.PooledScanIsAScan | internal/scanner/scanner.go:166-258 | dialing through the pool only restricts the scan: every pooled run contains a run of the scan reaching the same state |
| ScanThroughPool.ActiveIsExact | internal/proxypool/pool.go:110-177 | in every reachable state active[i] is the dials in progress through i plus its unreleased connections, so release always finds it positive |
| ScanThroughPool.AllSlotsReturn | internal/proxypool/pool.go:170-177 | when the events are closed every active[i] is 0, after cancellations and failed probes too |
| ScanThroughPool.NoProxyIsOverloaded | internal/proxypool/pool.go:145-168 | under least_connections no proxy ever carries more than Workers / n, rounded up |
| ScanThroughPool.EveryPooledScanEnds | internal/scanner/scanner.go:112-269 | the pool adds no deadlock and no endless run |
| DiscoveryThroughPool.PooledDiscoveryIsADiscovery | internal/discovery/discovery.go:246-284 | dialing through the pool only restricts discovery |
| DiscoveryThroughPool.PoolIsLeftIdle | cmd/go-port-scanner/main.go:136-188 | when Discover has returned, with results or an error, every slot of the shared pool is given back, so the scan finds it idle |
| DnsMessage.NameVisitsEachOffsetOnce | internal/probe/dns.go:104-147 | reading a name visits no offset twice, so it takes at most as many steps as the message has octets |
| DnsMessage.WalkIsValidName | internal/probe/dns.go:104-147 | the walk without its cap, which ends by its own measure, succeeds exactly when a name of at most 255 octets stands at the offset; that name and its end are unique |
| DnsMessage.DnsNameEnd | internal/probe/dns.go:104-147 | the capped loop gives the uncapped walk's end and errors; the cap only ever stops what reaches no root label |
| DnsMessage.TilingIsUnique | internal/probe/dns.go:80-102 | a message splits into records in one way only |
| DnsMessage.ValidateDNSResourceRecords | internal/probe/dns.go:80-102 | accepts exactly when the rest of the message tiles into `count` records with nothing left, which forces 11 * count octets |
| DnsMessage.EncodedRecordsTile | internal/probe/dns.go:80-102 | every list of records tiles whose names are written out or end in a pointer to any earlier name |
| DnsMessage.EarlierNamesCanBePointedTo | internal/probe/dns.go:119-133 | a name may end in a pointer to any legal name written before it, wherever that is, exactly when it has at most 255 octets in all |
| DnsMessage.CheckResponse | internal/probe/dns.go:43-76 | a response is accepted exactly when it answers the query (id, QR, opcode, question, tiling records), with its counts |
| DnsMessage.EveryLegalReplyAnswers | internal/probe/dns.go:43-76 | every reply to the query, its owner names compressed in any legal way, is accepted with the counts and code it holds |
| Ber.ReadBERElement | internal/probe/ber.go:8-36 | succeeds exactly when the stream starts with a BER encoding of an element within the limit, length in at most five octets, gives that element and leaves what follows |
| Ber.ReadsBer | internal/probe/ber.go:8-36 | reading gives an element and a rest if and only if the stream is tag, length of section 8.1.3 of X.690, content, rest |
| Ber.LengthOctetsMinimal | internal/probe/kerberos.go:110-122 | a length is written in the fewest octets if and only if it is at most 65535 |
| Ber.ReadUndoesWrap | internal/probe/kerberos.go:110-122 | readBERElement undoes derWrap, whatever follows, if and only if the content is at most 65535 octets and within the limit |
| Ber.JoinBytes | internal/probe/kerberos.go:124-134 | concatenates its arguments |
| Ber.JoinedElementsAreUnique | internal/probe/kerberos.go:110-134 | joined elements can be taken apart in one way only |
| Ber.IntegerDecodes | internal/probe/kerberos.go:99-108 | the content is two's complement of the argument if and only if that is in 0..65535, and then minimal |
| Ber.TreeReadsBack | internal/probe/ber.go:8-36 | a nested value reads back level by level if and only if its outermost content is at most 65535 octets and within the limit |
| Kerberos.KerberosPrincipal | internal/probe/kerberos.go:80-89 | builds the encoding of a PrincipalName value |
| Kerberos.KerberosASRequest | internal/probe/kerberos.go:59-78 | builds the encoding of the AS-REQ value of section 5.4.1 of RFC 4120 |
| Kerberos.RequestDecodes | internal/probe/kerberos.go:59-78 | repeated readBERElement gives back exactly that value if and only if the realm has at most 32698 octets; the context tags of both SEQUENCEs ascend |
| Kerberos.RequestOctets | internal/probe/kerberos.go:51-78 | the request for a realm of seven octets, such as INVALID, written out octet by octet |
| Kerberos.RequestLengthsAreMinimal | internal/probe/kerberos.go:59-122 | within that size every length at every level is minimal |
| Ldap.ProbeLdap | internal/probe/ldap.go:31-51 | reports code c exactly when the stream is laid out as a BER message with id 1 and a BindResponse that starts with result code c, whatever follows at each level |
| Ldap.EveryBindResponseAnswers | internal/probe/ldap.go:31-51 | every DER-encoded BindResponse of up to 65535 octets is recognised with its code, whatever follows |
| Postgresql.FieldsTileThePayload | internal/probe/postgresql.go:140-168 | a payload reads as given fields if and only if it is their encoding with at most one zero after it, so its split is unique |
| Postgresql.ValidatePostgreSQLError | internal/probe/postgresql.go:140-168 | accepts exactly the payloads made of fields among which are C and M |
| Postgresql.LayoutOfParsed | internal/probe/postgresql.go:140-168 | a payload that was read has the protocol's layout if and only if its closing zero is there and no field has type zero |
| Postgresql.LayoutIsAccepted | internal/probe/postgresql.go:140-168 | a payload in the protocol's layout is accepted if and only if no value is empty and C and M are present |
| Postgresql.MissingTerminatorIsAccepted | internal/probe/postgresql.go:140-168 | an accepted payload without closing zero |
| Postgresql.TypeZeroIsAccepted | internal/probe/postgresql.go:146-163 | accepted payloads with a field of type zero |
| Postgresql.EmptyValueIsRejected | internal/probe/postgresql.go:153-155 | a complete payload in the protocol's layout that is rejected |
| Postgresql.StringsFillTheBytes | internal/probe/postgresql.go:174-189 | bytes read as n strings if and only if they are n non-empty nul-terminated strings with nothing left |
| Postgresql.ValidatePostgreSQLNegotiation | internal/probe/postgresql.go:170-190 | accepts exactly when parameterCount strings fill the payload after the eighth byte, within (len - 8) / 2 + 1 turns whatever the count |
| Postgresql.ReadPostgreSQLMessage | internal/probe/postgresql.go:88-102 | succeeds exactly when the stream starts with the frame of a message whose length is at most 2^20, gives its type and payload and leaves what follows |
| Postgresql.MessageReadsBack | internal/probe/postgresql.go:88-102 | a message is read back and what follows left alone if and only if its length is within the limit |
| Dedupe.MergeIsFirstOccurrences | internal/config/targets.go:14-30 | looking elements up before adding them gives the distinct elements in the order of their first occurrences |
| Targets.ParseIPv4RangeEnd | internal/config/targets.go:129-141 | succeeds exactly for 0..255 and replaces the last octet only |
| Targets.ParseIPRange | internal/config/targets.go:97-127 | succeeds exactly on text that is no range or a range: the end is the one parsed, or for IPv4 the start with its last octet replaced, in the start's family and zone and not before it |
| Targets.PrefixIsBlock | internal/config/targets.go:71-83 | a masked prefix contains exactly the 2^(width-bits) addresses from its base, and they fit the address space |
| Targets.BlockIsThePrefix | internal/config/targets.go:71-83 | an address shares the prefix if and only if it is in that block |
| Targets.Expander.Add | internal/config/targets.go:17-30 | adds what is new while there is room and says whether it is in the list |
| Targets.Expander.AddPrefix | internal/config/targets.go:71-83 | offers the block in ascending order, once each, without wrapping at the top; at most MaxTargets + 1 offers however wide the prefix |
| Targets.Expander.AddRange | internal/config/targets.go:85-95 | offers start to end in order and never steps past the end; at most MaxTargets + 1 offers |
| Targets.AddEntry | internal/config/targets.go:32-66 | one entry adds its whole expansion or fails with its own error, in at most MaxTargets + 1 offers |
| Targets.ExpansionMeans | internal/config/targets.go:32-66 | an entry expands exactly when its prefix or range parses, to exactly what it stands for: the addresses that share its prefix, those between its ends, or its own address or hostname, ascending |
| Targets.ExpandedTargets | internal/config/targets.go:13-69 | succeeds exactly when all entries parse and the distinct targets fit; gives the first-occurrence dedupe of all expansions; otherwise names the first failing entry and why |
| Targets.ExpandedHolds | internal/config/targets.go:13-69 | the expanded list holds exactly what some entry stands for, each once |
| Targets.ExpandPortRanges | internal/config/config.go:635-648 | the distinct ports of all ranges by first occurrence |
| Report.BeforeIsStrictWeakOrder | internal/report/report.go:176-189 | the comparator is a strict weak order whose ties are exactly equal target and port |
| Report.StringLessMeans | internal/report/report.go:185-187 | strings are ordered by their first difference |
| Report.NormalizedIsInOrder | internal/report/report.go:167-191 | scanned targets come first, by their last place in the list, the others by name, the ports of one target ascending; every entry as often as before, ties as they stood |
| Report.SortIsSortedAndStable | internal/report/report.go:176-189 | the sorted list is ordered and keeps tied entries in their order |
| Report.StableSortIsUnique | internal/report/report.go:176-189 | any stable sort under the comparator gives the same list |
| Report.SortHidesArrivalOrder | internal/report/report.go:167-191 | two orders of the same open ports with distinct target and port sort to the same list |
| Report.SliceStable | internal/report/report.go:176-189 | the in-place sort gives that list |
| Report.OrderGivesLastIndex | internal/report/report.go:172-175 | the map holds each target's last position |
| Report.Normalize | internal/report/report.go:167-191 | only the open ports change, to the same entries in that order, ties as they stood |
| Report.NormalizeIsIdempotent | internal/report/report.go:167-191 | normalizing again changes nothing |
| ReportFilter.FilterWorkingTargets | internal/report/filter.go:47-55 | keeps the working targets in order |
| ReportFilter.FilterWorking | internal/report/filter.go:7-45 | the loops compute the filtered document; status, error, times and port count stay, the counts are those of the open ports |
| ReportFilter.AvailableHostsAreKept | internal/report/filter.go:11-19 | the results at exactly the available positions stay, in order and once each, without errors |
| ReportFilter.SuccessfulProbesAreKept | internal/report/filter.go:21-34 | every open port stays in place, with the probes at exactly its successful positions, in order and once each |
| ReportFilter.KeptMeans | internal/report/filter.go:47-55 | a target stays as often as it was listed if it is working, else not at all |
| ReportFilter.WorkingTargetsAreKept | internal/report/filter.go:9-37 | a target stays listed, as often as it was, exactly when discovery found it available or it has an open port |
| ReportFilter.FilterIsIdempotent | internal/report/filter.go:7-45 | filtering again changes nothing |
| ReportFilter.FilterAndNormalizeCommute | internal/report/filter.go:7-45 | filtering and normalizing commute, repeated scanned targets included |
| Reporting.ScanStats.Observe | cmd/go-port-scanner/stats.go:28-47 | updates the counters as the event says and no others |
| Reporting.DrainEvents | cmd/go-port-scanner/main.go:211-227 | the event loop leaves the tally of all events and the open ones in order |
| Reporting.OpenEventsAreKept | cmd/go-port-scanner/main.go:211-227 | the events kept are those at exactly the positions of Open events, in order |
| Reporting.TallyAddsUp | cmd/go-port-scanner/stats.go:28-47 | after any events completed = open + closed and closed = timeouts + refused + unreachable + other, and each of them is the number of such events |
| Reporting.BuildReportDocument | cmd/go-port-scanner/reporting.go:72-151 | completed without an error, interrupted with its text otherwise; every discovery result, open event and probe has its entry in its place, with its data, hostname, status and error; the statistics are copied |
| Reporting.CompletedReportAccountsForEverything | cmd/go-port-scanner/reporting.go:84-113 | for every finished run: the report is marked completed exactly when nothing was cancelled, and then completed = total and there is no error; otherwise interrupted with the reason; total = targets x ports, open = entries, and the sums hold in both cases |
| Reporting.SameTally | cmd/go-port-scanner/stats.go:28-47 | two traces that answer the same checks alike give the same statistics |
| Reporting.SchedulingIsInvisible | internal/report/report.go:167-191 | two completed scans of the same distinct targets and ports with the same answers give identical normalized reports, whatever their workers and interleavings |
| Discovery.EverySlotIsWrittenOnce | internal/discovery/discovery.go:140-179 | when Discover returns results, every slot was written exactly once, with the result of its own target |
| Discovery.ResultsUnlessCancelled | internal/discovery/discovery.go:172-178 | Discover returns its results exactly when nothing was cancelled before it returned, and an error otherwise |
| Discovery.DiscoverIsAMap | internal/discovery/discovery.go:140-179 | in every interleaving in which nothing is cancelled before it returns, Discover returns the sequential map of the checks over the targets |
| Discovery.EveryDiscoveryEnds | internal/discovery/discovery.go:140-179 | Discover always comes to return |
| Discovery.CancelledDiscoveryNeedsNoSend | internal/discovery/discovery.go:164-173 | once cancelled, it comes to return without sending another job |
| Discovery.CheckTCP | internal/discovery/discovery.go:246-332 | gives the verdict of the attempts and one diagnostic event per attempt made, which says what came of it, none after the decisive one |
| Discovery.VerdictIsFirstDecisive | internal/discovery/discovery.go:246-332 | the verdict is that of the first attempt that connects, is refused or finds the context done; without one, down with the last error that is no timeout |
| Discovery.UpMeansAnswered | internal/discovery/discovery.go:259-308 | a target is up exactly when some attempt connects or is refused and none before it finds the context done |
| Discovery.TimeoutsDoNotMatter | internal/discovery/discovery.go:309-319 | ports that time out have no say |
| Discovery.Check | internal/discovery/discovery.go:181-223 | up exactly when a method of the strategy says so; the method named is the one that did; TCP is fallen back on only if the ping failed and the context is live; which error is kept |
| ReverseDns.Jobs | internal/reversedns/reversedns.go:73-80 | one job per IP literal, numbered in order, with its canonical address |
| ReverseDns.IPTargetsAre | internal/reversedns/reversedns.go:73-80 | exactly the targets that are IP literals are looked up, in order and once each |
| ReverseDns.NoWorkerBlocks | internal/reversedns/reversedns.go:99-115 | no worker ever waits at the result queue, though nothing reads it before all workers end |
| ReverseDns.EveryJobIsDeliveredOnce | internal/reversedns/reversedns.go:88-119 | if the context is live at the end, every job is in the queue exactly once with its own target |
| ReverseDns.ResultsUnlessCancelled | internal/reversedns/reversedns.go:114-124 | Resolve returns results exactly when nothing was cancelled before its workers had ended |
| ReverseDns.EveryResolveEnds | internal/reversedns/reversedns.go:88-115 | the pool always comes to its end |
| ReverseDns.CancelledResolveNeedsNoLookup | internal/reversedns/reversedns.go:99-114 | once cancelled, it comes to its end without another lookup |
| ReverseDns.Collect | internal/reversedns/reversedns.go:120-124 | slot i gets the last result queued for it |
| ReverseDns.ResolveIsAMap | internal/reversedns/reversedns.go:62-125 | in every interleaving in which nothing is cancelled before the workers have ended, Resolve returns results and slot i is the lookup of the i-th IP target |

## Left out

- Goroutines, channels and `select` are step relations on values, not imperative code: what the Go
  memory model allows between two communications is not modelled; that a mutex, a `sync.Once` and a
  `WaitGroup` work is taken for granted.
- Sockets, TLS, HTTP, files, clocks and timeouts: a dial, probe, close, ping or lookup gives any result;
  the context is one flag that stays set once it is. Fairness is not modelled; that runs end assumes
  that every call returns.
- `sort.SliceStable` is modelled as an insertion sort in place; `Report.StableSortIsUnique` shows that
  the algorithm does not matter.
- Text: parsing and printing of addresses, trimming, YAML, JSON, CSV and text reports, error messages.
  Errors are tags (in host discovery and in the report, their texts); an address stands for its
  canonical string, taken to be injective, and a hostname is never an address's string.
- Nil and empty slices are the same, and copied slices are values, so that `normalize` leaves its
  argument alone is not stated.
- Integer widths where no value can reach them: counters, indices and lengths are unbounded; the
  truncations of `derWrap`, `derInteger` and the 16-bit fields are modelled.
- Durations and times are numbers.
- The random strategy is any proxy in range; its distribution is not modelled.
- SOCKS dialing and the steps of a proxy dial before its watcher is armed (TCP connect, deadline, TLS):
  `ProxyTunnel` starts with the watcher, `ScanThroughPool` takes the whole dial as one outcome.
- The TCP length prefixes of DNS and Kerberos and the requests that DNS and LDAP send: one comparison
  or constant each.
- The startup exchange of PostgreSQL and its Authentication response: a switch over constants.
- The other probes (fixed formats), the probe registry, ICMP, `reversedns.resolveOne`, configuration
  defaults and validation, the constructors of the pools, logging and progress: each only branches or
  compares once.
