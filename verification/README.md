# lowping: verified model

lowping carries game traffic over a private tunnel. On the player's machine a capture driver redirects
outgoing datagrams to local listeners; each listener tunnels them, encrypted, to a bridge; the bridge
passes them on to the game server and sends the answers back. Which bridge to use, if any, is decided
per destination from measured round-trip times and the AWS region that owns the address.

This project models those parts in Dafny and proves what they promise, over every input and every
run. `dafny verify dfyconfig.toml` checks all of it.

| file | part |
|---|---|
| `Wire`, `Crypto` | machine integers and byte strings; the cryptographic primitives as functions obeying three laws: opening inverts sealing, Diffie-Hellman commutes, signatures verify |
| `Protocol`, `License`, `Syn` | frame, CONNECT and licence codecs; opening a tunnel, from the client's SYN to the bridge's verdict on it |
| `Cidr`, `AwsRegions`, `AwsDuplicates`, `AwsMatching` | the AWS region index: compiling it, looking addresses up in it, and how far that agrees with longest-prefix match |
| `Capture`, `WinDivert`, `PacketOctets`, `FlowHistory` | the driver filter, the rewriting of raw IPv4 packets, that rewriting octet by octet, and the flow table over whole runs |
| `Router`, `RouterTrace` | the route picker with its cache and log, and the resolver built on it |
| `CaptureLoop`, `FixedRules`, `SmartMode` | starting the capture, for fixed rules and for smart mode: what is wired to what, and what comes of it |
| `Bridge`, `BridgeRuns`, `BridgeHistory` | the bridge's tasks as steps over a shared session table, in every interleaving, and the table as a replay of the steps |
| `Forwarder`, `Transparency`, `EndToEnd` | the client's tunnels; every run of the player's machine; and the whole path from the game to the game server and back |

Code that updates state in place is a class or a loop here too, each method tied to a function giving
the new state (`Next`, `FlowsAfter`, `AfterPick`, `Receive`, `Upstream`); the runs are then runs of that function.

## Where the code and its documentation part ways

The model follows the code. Each of these is proved as an exact condition, or with a run that shows it.

- The region lookup says it picks the most specific range. It walks back over 32 entries only, so a
  range with 32 later ones starting inside it is missed (the bundled list has such ranges: 44.224.0.0/11
  against 44.254.16.0), and of ranges starting exactly at the address it may stop at the shorter
  (`LookupIsLongestMatchExactlyWhen`, `AnswerMatchesTheRawListExactlyWhen`, `CrowdedBlockIsMissed`,
  `SharedStartMayLoseTheLongerMask`).
- Deduplication leaves an equal range behind when another region's entry for the same block stands
  between two equal ones (`TableHasNoDuplicatesExactlyWhen`).
- The bridge's session limit is checked in one step and the session inserted in a later one; the limit
  can be passed by one less than the number of accepts in flight (`TableStaysBounded`, `BoundIsReached`).
- The bridge's reaper collects idle sessions in one step and removes them in another, by key; a session
  that was active, or was created, in between is dropped (`ReaperDropsIdleExactlyWhen`).
- A smart-routing listener never drops a tunnel, and asks where a datagram was meant to go only when it
  opens one, by source port alone. A port that the game uses again for another destination keeps sending to
  the first, and one used for two destinations at once may send the first datagram to the second
  (`DeliveryIsRightExactlyWhen`, `SecondDestinationIsMissed`, `RacingDatagramIsMisrouted`).
- A reader of the bridge outlives the listing of its session. When a client signs on again, its new session
  is sent what the old destination still says (`SessionSendsOwnDataExactlyWhen`, `OldDataReachesNewSession`).
- An inbound packet is rewritten on its destination port alone, where the comment says its source is a
  redirect target. Any source will do (`InboundSourceIsNotChecked`), and a reply to a datagram for one
  destination comes out as from the one its port was last redirected for (`ReplyIsRightExactlyWhen`,
  `LateReplyIsMisattributed`).
- Smart mode without the dashboard resolves with one router and gives the measurements to another, so it
  never redirects anything (`SmartMode.Resolve`).
- Fixed rules are armed without the bridges to leave alone, against the capture loop the filter is meant to
  avoid. A rule whose captured range takes in its own bridge gets every frame of its own tunnels back
  (`CapturedExactlyWhen`, `TunnelComesBackToItsListener`).
- A fixed rule may capture another address or a range of ports, but tunnels all of it to its one destination
  (`FixedRuleIsRightExactlyWhen`, `DecidedRightExactlyWhen`); and a TCP rule captures nothing, the filter
  being for UDP (`TcpRulesCaptureNothing`).
- The bridge's idle limit is for sessions "with no traffic". What the destination sends is not counted, and
  a listener never opens a second tunnel for a port, so after a pause longer than the limit everything it
  forwards for that port is dropped (`OnlyClientsKeepSessionsAlive`, `UnlistedUntilReopened`,
  `DatagramsReachTheirDestinationExactlyWhen`).
- The configured `margin_ms` is never used; the picker's margin is always 2 ms
  (`FixedMarginDiffersExactlyWhen`).

## Model

| member | source | states |
|---|---|---|
| EndToEnd.DatagramsReachTheirDestinationExactlyWhen | crates/gr-bridge/src/server.rs:155-175 | over every run of the player's machine and every run of the bridge: a datagram forwarded in a tunnel whose SYN opened the client's latest session is written, payload and all, to the destination the game addressed if and only if the bridge lists the client when the frame arrives and the latest redirect of the source port before the listener's first forwarding for it was for that destination; it is dropped for want of a session if and only if the client is not listed |
| EndToEnd.RepliesReachTheGameExactlyWhen | crates/gr-client/src/smart.rs:233-262 | every datagram the bridge sends in a tunnel's session opens at the listener to what was read from a destination, and comes out for the game as from the tunnel's destination if and only if no reap since the source port's latest redirect found it idle and that redirect was for the same destination |
| Transparency.TunnelsAreReadRightExactlyWhen | crates/gr-client/src/smart.rs:189-282 | in any run of capture, reaping, delivery and loss, for every datagram a listener forwards: a bridge that accepts the token reads from the tunnel's SYN a CONNECT to the destination the game addressed, and from the frame the game's payload, if and only if the latest redirect of its source port before the listener's first forwarding for that port was for that destination; only an oversized payload is not sent |
| Transparency.TunnelsAreReadRight | crates/gr-client/src/smart.rs:189-282 | so it does whenever the port is only redirected for one destination |
| Transparency.ReplyComesFromTunnelExactlyWhen | crates/gr-client/src/smart.rs:233-262 | at any point of any run, what a listener hands back for a port it serves comes out as from the tunnel's destination under exactly that condition on the port's latest redirect |
| Transparency.DeliveryIsRightExactlyWhen | crates/gr-client/src/smart.rs:201-229 | every forwarded datagram goes to the destination of that latest redirect, and to its own exactly when they agree |
| Transparency.ForwardingIsRightExactlyWhen | crates/gr-client/src/smart.rs:201-280 | one forwarding, in any state and with anything in flight, goes right if and only if the listener's tunnel for the source port, or without one the flow table's origin for it, is for the datagram's destination |
| Transparency.RacingDatagramIsMisrouted | crates/gr-client/src/smart.rs:204-212 | a run in which two datagrams of one port are captured, for one listener or two, before the first is delivered: the first is sent to the second one's destination, in a new tunnel |
| Transparency.ReusedPortMisroutes | crates/gr-client/src/smart.rs:201-203 | two datagrams of one source port meant for different destinations and forwarded by one listener share a destination, so one of them goes astray |
| Transparency.SecondDestinationIsMissed | crates/gr-client/src/smart.rs:201-203 | a run in which this happens: the second datagram is sent to the first one's destination |
| Transparency.RunsStaySound | crates/gr-client/src/smart.rs:214-280 | in every run each forwarded datagram is a frame with the game's payload in a tunnel opened, through the listener's own bridge, for the tunnel's destination |
| Transparency.RunsKeepOneTunnel | crates/gr-client/src/smart.rs:201-266 | in every run all that a listener forwards for a source port goes into one tunnel, which it keeps, under sequences 1, 2, 3, ... |
| Transparency.ListenersRepeatNoncesExactlyWhen | crates/gr-client/src/smart.rs:265-273 | in every run two frames of one listener and source port share a nonce if and only if a multiple of 2^64 datagrams apart, and one shares it with the SYN if and only if its number is such a multiple |
| Transparency.FlowsAreHistory | crates/gr-capture/src/windivert_backend.rs:350-407 | the flow table of a run depends on the capture loop's part of it only |
| FlowHistory.TableIsReplayOfHistory | crates/gr-capture/src/windivert_backend.rs:350-407 | a port has a flow if and only if it was redirected and no reap since found it idle; the flow holds the original destination and target of the latest redirect and the time of the latest traffic |
| FlowHistory.ReplyIsRightExactlyWhen | crates/gr-capture/src/windivert_backend.rs:306-407 | the reply to a redirected packet comes out octet for octet as the reply to the game's own packet if and only if no reap since the latest redirect of the port found it idle and that redirect was for the same destination |
| FlowHistory.InboundComesFromLatestDestination | crates/gr-capture/src/windivert_backend.rs:371-395 | any packet arriving for a port gets the destination of the port's latest redirect as its source, and passes through unchanged if and only if there was none or it was found idle |
| FlowHistory.LateReplyIsMisattributed | crates/gr-capture/src/windivert_backend.rs:372-385 | two packets of one port for different destinations: the reply to the first comes out as from the second's destination |
| FlowHistory.InboundSourceIsNotChecked | crates/gr-capture/src/windivert_backend.rs:372-380 | whatever source is put into an arriving packet, it comes out the same; it is rewritten if and only if its port has a flow |
| FlowHistory.ReplyComesFromOriginalDestination | crates/gr-capture/src/windivert_backend.rs:306-407 | in particular, while a port is neither redirected elsewhere nor reaped, its packets come out as from the original destination |
| FlowHistory.FlowSurvives | crates/gr-capture/src/windivert_backend.rs:398-407 | a flow with traffic within the idle limit before every reap, and not redirected elsewhere, is still there with its original destination |
| FlowHistory.SwapUndoesRewrite | crates/gr-capture/src/windivert_backend.rs:360-385 | swapping the endpoints of a rewritten packet and restoring the source equals swapping those of the original, for every header length |
| WinDivert.RewriteTouchesOnlyOneEndpoint | crates/gr-capture/src/windivert_backend.rs:306-396 | for arbitrary bytes: a rewritten packet keeps its length, payload, protocol and other endpoint and differs only in the six octets of one address and port; a packet passed through leaves the flows alone |
| WinDivert.WinDivertCapture.ProcessPacket | crates/gr-capture/src/windivert_backend.rs:306-396 | for arbitrary bytes no index is out of range, and table and output are those of the history model |
| PacketOctets.OutboundInOctets | crates/gr-capture/src/windivert_backend.rs:328-370 | octets in, octets out: the resolver is asked about the destination octets 16 to 19 and the port after the header spell, for UDP if octet 9 is 17; a redirected packet comes out with just its destination octets spelling the target, and the flow of its source port is recorded; otherwise nothing happens |
| PacketOctets.InboundInOctets | crates/gr-capture/src/windivert_backend.rs:371-395 | with a flow for the destination port its octets spell, a packet comes out with just its source octets spelling the flow's original destination, and the flow is refreshed; otherwise nothing happens |
| PacketOctets.ReadsOctets | crates/gr-capture/src/windivert_backend.rs:319-337 | header length, protocol, addresses and ports as sums of octets times powers of 256 |
| PacketOctets.ParsesExactlyWhen | crates/gr-capture/src/windivert_backend.rs:312-331 | the packets looked at, in octets |
| PacketOctets.UnparsedPassesThrough | crates/gr-capture/src/windivert_backend.rs:312-331 | any other comes out as it was and leaves the flows alone |
| PacketOctets.SightInOctets | crates/gr-capture/src/windivert_backend.rs:124-156 | what the driver's filter is given to see of a packet, in octets |
| PacketOctets.FlowsLastTwoMinutes | crates/gr-capture/src/windivert_backend.rs:398-407 | a reap keeps exactly the flows seen in the last 120 seconds |
| WinDivert.WinDivertCapture.ReapFlows | crates/gr-capture/src/windivert_backend.rs:398-407 | keeps exactly the flows seen within the idle limit, unchanged |
| WinDivert.WinDivertCapture.FlowOrigin | crates/gr-capture/src/windivert_backend.rs:172-176 | the original destination on record for a source port, if any |
| SmartMode.StartSmartMode | crates/gr-client/src/forwarder.rs:117-159 | fails if and only if there are no bridges; the filter armed is well formed and selects UDP leaving for neither a bridge nor a listener and UDP arriving from a listener, no more and no less; so whatever is measured, picked and looked up it matches no packet to a bridge and none already rewritten, but does match UDP replies; the resolver's router is new and not the seeded one |
| SmartMode.SmartMode.Resolve | crates/gr-client/src/forwarder.rs:137-158 | after any calls, no packet is redirected: the resolver asks its own router, which nothing gives a measurement |
| SmartMode.SmartMode.Measured | crates/gr-client/src/smart.rs:130-142 | a measurement changes the seeded router and leaves the resolver's as it was |
| SmartMode.StartSmart | crates/gr-client/src/smart.rs:126-148 | the second router holds each bridge's estimate and nothing else, and has decided nothing |
| SmartMode.Estimate | crates/gr-client/src/smart.rs:134-141 | the estimate the table of names gives, and 40 ms for any other name |
| SmartMode.BlindGoesDirect | crates/gr-client/src/router.rs:137-172 | a router without measurements and with none but direct routes cached answers direct, and stays so |
| FixedRules.CapturedExactlyWhen | crates/gr-client/src/forwarder.rs:162-199 | with fixed rules a packet leaving, one of a tunnel to its bridge like any other, is captured and redirected if and only if it is UDP, no listener has its destination address, and the first rule that applies to it has an IPv4 listener |
| FixedRules.CapturedByConfigurationExactlyWhen | crates/gr-client/src/forwarder.rs:162-199 | the same in terms of the configuration: octet 9 says UDP, no capturing rule listens at the destination address, and the first UDP rule whose address and ports, both bounds included and defaulted as documented, take in the destination has an IPv4 listener, where the packet goes |
| FixedRules.ResolvedByConfiguration | crates/gr-client/src/forwarder.rs:170-185 | the redirects resolve a UDP destination to the listener of the first configured rule that wants it, and pass exactly when none does |
| FixedRules.TunnelComesBackToItsListener | crates/gr-client/src/forwarder.rs:194 | a UDP rule whose captured range takes in its own bridge: every frame its tunnels send is captured and comes back to its listener |
| FixedRules.InstallCapture | crates/gr-client/src/forwarder.rs:162-199 | a filter is armed if and only if some rule captures; it selects all UDP leaving for no listener's address, no bridge being left out, and UDP arriving from a listener; it is well formed if and only if a capturing rule's listener is IPv4 |
| FixedRules.HandedOverExactlyWhen | crates/gr-capture/src/windivert_backend.rs:117-161 | what the driver hands over, in both directions, in terms of the rules' listeners; never a TCP packet |
| FixedRules.RedirectedExactlyWhen | crates/gr-capture/src/lib.rs:77-90 | a packet is redirected if and only if the first rule that applies to it has an IPv4 listener, and to that listener |
| FixedRules.TcpRulesCaptureNothing | crates/gr-client/src/forwarder.rs:170-174 | the rule that decides about a captured packet is a UDP rule |
| FixedRules.FixedRuleIsRightExactlyWhen | crates/gr-client/src/forwarder.rs:354-480 | in any run of a rule's listener the bridge reads from what it forwards the payload for the rule's destination, and so for the destination the game addressed if and only if the two are the same |
| FixedRules.DecidedRightExactlyWhen | crates/gr-client/src/forwarder.rs:175-185 | they are the same, for a packet the rule decides about, if and only if the rule captures for no other address and the packet's port is the destination's |
| FixedRules.DeliveredToListener | crates/gr-client/src/forwarder.rs:178-185 | a captured packet goes, payload unchanged, to the listener of the rule that decides |
| FixedRules.ListenerKeepsToDest | crates/gr-client/src/forwarder.rs:405-427 | in every run, reaping included, all tunnels of a rule's listener lead to the rule's destination |
| CaptureLoop.WithRules | crates/gr-capture/src/windivert_backend.rs:81-161 | given fixed rules and the bridge endpoints to leave alone, the filter matches no packet to those endpoints and none already rewritten, but does match UDP replies |
| WinDivert.NoCaptureLoop | crates/gr-capture/src/windivert_backend.rs:124-136 | the traffic to select includes no packet to a bridge, nor any packet after its rewrite, under every resolver that redirects only to declared targets |
| WinDivert.RepliesAreCaptured | crates/gr-capture/src/windivert_backend.rs:143-156 | the reply to a redirected UDP packet matches the inbound part of the filter |
| Capture.BuildFilter | crates/gr-capture/src/windivert_backend.rs:117-161 | the filter selects UDP leaving for neither a bridge nor a target and UDP arriving from a target, and nothing else; it is well formed if and only if some target is IPv4, and refused if and only if there are no targets |
| Capture.FixedResolverTakesFirstMatch | crates/gr-capture/src/lib.rs:77-90 | the first rule that applies decides, passing through means that none does, and a redirect goes to that rule's place among the targets declared to the capture |
| RouterTrace.ResolversKeepToDeclaredTargets | crates/gr-client/src/forwarder.rs:145-149 | at any point of any run the smart resolver redirects to 127.0.0.1 at the port of the bridge picked, and both resolvers only to targets the capture was told about |
| AwsMatching.LookupIsLongestMatchExactlyWhen | crates/gr-common/src/aws_regions.rs:92-129 | every outcome of the lookup of an address is a longest match if and only if the ranges starting at it share one mask and no range more than 32 entries back is the last to hold it |
| AwsMatching.SparseTableSuffices | crates/gr-common/src/aws_regions.rs:98-110 | with no shared starts and fewer than 32 later ranges starting inside any range, every address is looked up right |
| AwsMatching.AnswerMatchesTheRawListExactlyWhen | crates/gr-common/src/aws_regions.rs:55-129 | every region the lookup of an address can report is that of a list entry with the longest mask among those whose leading bits the address shares, if and only if each range starting at the address has the region of a longest one starting there, and no range more than 32 entries back is the last to hold it |
| AwsMatching.FirstHitIsFinal | crates/gr-common/src/aws_regions.rs:109-128 | the first entry holding the address met on the backward walk already has the longest mask; going on never changes the answer |
| AwsMatching.LaterCoverIsLonger | crates/gr-common/src/aws_regions.rs:98-100 | of two entries holding an address the later has the longer or equal mask |
| AwsMatching.CrowdedBlockIsMissed | crates/gr-common/src/aws_regions.rs:110 | a /8 and 32 single addresses in it: the next address is in the /8 and is not found |
| AwsMatching.SharedStartMayLoseTheLongerMask | crates/gr-common/src/aws_regions.rs:104-107 | a /8 and a /16 starting together: the search may stop at the /8 and report it |
| AwsRegions.AwsLookup.RegionFor | crates/gr-common/src/aws_regions.rs:92-129 | the answer is that of the bounded walk from an index a binary search may return; V6 gets none |
| AwsRegions.AwsLookup.BinarySearch | crates/gr-common/src/aws_regions.rs:104-107 | finds an entry starting at the address, or the place where one would be inserted |
| AwsRegions.WalkIsBestOfWindow | crates/gr-common/src/aws_regions.rs:109-121 | the walk's answer has a mask no shorter than any entry of its window that holds the address, and exists when there is one |
| AwsRegions.WalkFindsHit | crates/gr-common/src/aws_regions.rs:109-128 | the walk's answer is an entry of its window that holds the address |
| AwsRegions.HitIsCover | crates/gr-common/src/aws_regions.rs:114-117 | the saturating range test is membership in the block |
| AwsRegions.LoadBundled | crates/gr-common/src/aws_regions.rs:59-87 | a range is listed under a region if and only if some entry of the list parses to it and names the region; regions are distinct, in range and named by such entries; the table is the parsed ranges stably sorted by network and mask and deduplicated; its networks are aligned |
| AwsRegions.ParsedEntryByEntry | crates/gr-common/src/aws_regions.rs:63-75 | parsing the list is parsing its entries, in order, each as often as it stands there |
| AwsRegions.ParsedOne | crates/gr-common/src/aws_regions.rs:67 | an entry is left out if and only if it does not parse or its mask is over 32 |
| AwsRegions.SortByKey | crates/gr-common/src/aws_regions.rs:78 | the result is in key order and has the same entries |
| AwsRegions.SortIsStable | crates/gr-common/src/aws_regions.rs:78 | entries with equal keys keep their order |
| AwsDuplicates.TableHasNoDuplicatesExactlyWhen | crates/gr-common/src/aws_regions.rs:77-80 | the table lists no range twice if and only if in the list, among the ranges of each block, equal ones follow each other |
| AwsDuplicates.InterleavedRegionsKeepADuplicate | crates/gr-common/src/aws_regions.rs:77-80 | one block under region a, then b, then a again keeps its duplicate |
| AwsRegions.ParseCidr | crates/gr-common/src/aws_regions.rs:135-142 | succeeds exactly on masks up to 32, with the aligned block of that size holding the address |
| Cidr.MaskedIsBlockStart | crates/gr-common/src/aws_regions.rs:140 | ANDing with the shifted mask word gives the start of the aligned block holding the address |
| Cidr.NestedOrDisjoint | crates/gr-common/src/aws_regions.rs:98-100 | of two aligned blocks sharing an address one lies inside the other |
| Cidr.CoversIsCommonPrefix | crates/gr-common/src/aws_regions.rs:114-117 | a block holds exactly the addresses that share its leading bits |
| RouterTrace.ReturnedRouteIsRecentDecision | crates/gr-client/src/router.rs:137-217 | a route returned at time t is the stateless decision on the measurements, region and direct time of some pick for that address made now or less than 60 s before t, whatever was recorded in between |
| RouterTrace.LogAndCacheAgreeWithHistory | crates/gr-client/src/router.rs:174-200 | the log is the last 64 fresh decisions in order, field by field, and the cache holds for each address the latest one, fresh decisions being told without a cache: one a minute at most for each address |
| RouterTrace.UnmeasuredRouterGoesDirect | crates/gr-client/src/router.rs:137-172 | a router with no measurements recorded never uses a bridge |
| RouterTrace.CacheIsExplained | crates/gr-client/src/router.rs:139-143 | each cached decision is that of an earlier pick for its address |
| RouterTrace.PingsAreMeasurements | crates/gr-client/src/router.rs:125-129 | the stored measurement of each bridge is the last one recorded |
| RouterTrace.MeasuredIsLatest | crates/gr-client/src/router.rs:125-129 | that is, a bridge is measured if and only if it was recorded, and as it was recorded last |
| RouterTrace.RoutesStayInRange | crates/gr-client/src/router.rs:139-172 | every cached or fresh route names an existing bridge |
| Router.DecisionIsOptimal | crates/gr-client/src/router.rs:147-172 | bridge i is chosen if and only if it is the first with the least measured path and that path plus the margin is below the direct time |
| Router.DecisionOnMeasurements | crates/gr-client/src/router.rs:147-172 | in milliseconds: bridge i is chosen if and only if it is the first with the least sum of client-to-bridge and bridge-to-region time among those finite in both halves, and the sum plus 2 is below the direct time or that is infinite |
| Router.ReportedTime | crates/gr-client/src/router.rs:166-172 | the time recorded with a decision is the least sum, or infinite with no bridge within reach |
| Router.FixedMarginDiffersExactlyWhen | crates/gr-client/src/router.rs:104 | the decision made with the fixed margin is not the one the configured margin would give if and only if the first shortest path's advantage over the direct one is more than the smaller margin and not more than the larger |
| Router.BestIsFirstShortest | crates/gr-client/src/router.rs:148-163 | the scan finds the first shortest measured path, and nothing exactly when no path is measured |
| Router.Router.Pick | crates/gr-client/src/router.rs:137-217 | answers from the cache or decides afresh, and changes cache and log accordingly |
| Router.Router.Best | crates/gr-client/src/router.rs:148-163 | the loop computes the first shortest path |
| Router.Router.RecentDecisions | crates/gr-client/src/router.rs:110-113 | the last min(n, length) log entries, newest first |
| Router.SmartResolver.Resolve | crates/gr-client/src/smart.rs:83-101 | redirects to 127.0.0.1 at the picked bridge's own port, or passes; the direct time is the table's for the region, and infinite for an unknown one |
| BridgeRuns.DownstreamIsDelivered | crates/gr-bridge/src/server.rs:179-235 | in every interleaving the datagrams sent are, in order, exactly the packets read from the destinations whose client had a session listed at the step that took them off the queue; each is sent in that session and opens to its packet under the key the session was opened with |
| BridgeRuns.EachSessionGetsItsStream | crates/gr-bridge/src/server.rs:204-235 | what opens under the key a session was opened with, of the datagrams sent in it, is exactly the packets handed to that session, in order |
| BridgeRuns.QueueStaysSound | crates/gr-bridge/src/server.rs:197-213 | the n-th packet taken off the queue is the n-th that was read |
| BridgeRuns.SessionSendsOwnDataExactlyWhen | crates/gr-bridge/src/server.rs:139-150 | a packet that finds a session is sent in that of its own reader if and only if no later session had been opened for its client when it was taken off the queue |
| BridgeRuns.OldDataReachesNewSession | crates/gr-bridge/src/server.rs:139-150 | a run in which a client that signs on again is sent its old destination's data under its new key |
| BridgeRuns.SessionsServeOneClient | crates/gr-bridge/src/server.rs:141-142 | in every run a session is listed under, and sends to, the one client it was opened for |
| BridgeRuns.SessionsCountFromOne | crates/gr-bridge/src/server.rs:214-230 | each session object sends 1, 2, 3, ... without a gap |
| BridgeRuns.HeadersCountFromOne | crates/gr-bridge/src/server.rs:216-223 | in every run the header on the wire of each datagram decodes to version 1, no flags, its client's connection id, and one more than the number its session sent before |
| BridgeRuns.SessionRepeatsNonceExactlyWhen | crates/gr-bridge/src/server.rs:216-223 | in every run the nonces of two datagrams of one session object, as read off the wire, agree if and only if a multiple of 2^64 of its datagrams apart |
| BridgeHistory.TableIsReplayOfSteps | crates/gr-bridge/src/server.rs:112-142 | a client is listed if and only if a session was opened for it and no removal since then followed a scan that found its session idle; then with the session last opened for it, its key and its destination; and what the reaper holds is what its scan found idle |
| BridgeHistory.OnlyClientsKeepSessionsAlive | crates/gr-bridge/src/server.rs:155-162 | a session's last activity is its opening or its latest datagram from the client, whatever its destination sends |
| BridgeHistory.FramesArePassedOnExactlyWhen | crates/gr-bridge/src/server.rs:155-175 | a frame under the key of the client's latest session is written to that session's destination if and only if the client is listed |
| BridgeHistory.FramesAreRefusedExactlyWhen | crates/gr-bridge/src/server.rs:155-161 | a data frame is refused for want of a session if and only if the client is not listed, and otherwise for just what is wrong with it |
| BridgeHistory.UnlistedUntilReopened | crates/gr-bridge/src/server.rs:251-255 | a client that is not listed stays so until a session is opened for it |
| BridgeRuns.TableStaysBounded | crates/gr-bridge/src/server.rs:112-142 | with at most C accepts in flight, sessions plus pending accepts never exceed max_sessions - 1 + C, and there are none if none are allowed |
| BridgeRuns.BoundIsReached | crates/gr-bridge/src/server.rs:112-142 | for every limit and every C, up to the number of IPv6 clients, some run fills the table to exactly that many sessions |
| BridgeRuns.OneAcceptAtATimeKeepsLimit | crates/gr-bridge/src/server.rs:112-142 | with accepts one at a time the table never exceeds max_sessions |
| BridgeRuns.ReaperDropsIdleExactlyWhen | crates/gr-bridge/src/server.rs:237-259 | every key found idle is removed, and what is removed is still idle if and only if no step since the scan gave the key a session or its session activity |
| BridgeRuns.FreshSessionCanBeDropped | crates/gr-bridge/src/server.rs:237-259 | a run in which a session just accepted is removed |
| Bridge.BridgeState.AcceptNewSession | crates/gr-bridge/src/server.rs:107-153 | undisturbed, refuses for a full table, a bad SYN or an unreachable destination in that order, leaving the state alone, and otherwise lists a new session under the derived key |
| Bridge.DispatchReads | crates/gr-bridge/src/server.rs:93-105 | a datagram is for the connection its second to fifth octets name, and asks to open it if the sixth bit of the first is set |
| Bridge.BridgeState.AcceptCheck | crates/gr-bridge/src/server.rs:112-114 | passes if and only if the table is below its limit, and takes the check step |
| Bridge.BridgeState.AcceptInsert | crates/gr-bridge/src/server.rs:141-142 | takes the insert step with a new session object, replacing any listed under the key |
| Bridge.BridgeState.ForwardPacket | crates/gr-bridge/src/server.rs:155-175 | undisturbed, a data frame is dropped without a session, refused if it does not decrypt, and otherwise its payload is written to the session's destination and counts as activity |
| Bridge.BridgeState.ForwardData | crates/gr-bridge/src/server.rs:155-175 | only a datagram that decrypts counts as activity, and its payload is what is forwarded |
| Bridge.BridgeState.DrainDest | crates/gr-bridge/src/server.rs:184-201 | queues the chunk read behind all others, under the key the reader was started with, listed or not |
| Bridge.BridgeState.DownstreamReceive | crates/gr-bridge/src/server.rs:209-213 | takes the oldest packet, and drops it if no session is listed for its key |
| Bridge.BridgeState.DownstreamSend | crates/gr-bridge/src/server.rs:214-233 | takes the send step on the object in hand, listed or not |
| Bridge.BridgeState.ReapScan | crates/gr-bridge/src/server.rs:241-250 | collects the idle sessions whose lock is free |
| Bridge.BridgeState.ReapRemove | crates/gr-bridge/src/server.rs:251-255 | removes the collected keys, whatever they name by then |
| Syn.AssembledSynIsUnderstood | crates/gr-bridge/src/server.rs:116-131 | for every token, request and connection id the client's SYN can be built, is 157 octets (169 for IPv6), and the bridge reads back the same header, key, token and request, refusing it for the licence's reasons and no other |
| Syn.AcceptedExactlyWhen | crates/gr-bridge/src/server.rs:116-131 | a SYN is accepted if and only if its octets from 45 open, under the key shared with the public key in octets 13 to 44, to a payload whose first 24 octets the backend's key verifies with the next 64 as signature, whose window holds the time, whose scope has its lowest bit set unless any will do, and which ends in a request; and as just that |
| Syn.OpenedButRefused | crates/gr-bridge/src/server.rs:121-129 | once opened, it is refused as too short, for its signature or for its scope exactly when each is the case |
| Syn.OpenTunnel | crates/gr-client/src/forwarder.rs:220-259 | the tunnel opened is the one whose SYN is proved understood |
| Forwarder.TunnelRepeatsNonceExactlyWhen | crates/gr-client/src/forwarder.rs:464-470 | in one tunnel two data frames share a nonce if and only if a multiple of 2^64 datagrams apart, and one shares it with the SYN if and only if its number is such a multiple |
| Forwarder.OnlyOversizedDatagramsAreLost | crates/gr-client/src/forwarder.rs:462-478 | exactly the oversized datagrams leave gaps; the others carry their position as sequence and decrypt to what was put in |
| Forwarder.TunnelIsOneSession | crates/gr-bridge/src/server.rs:93-105 | the bridge takes a tunnel's SYN as a request for a session and all its data frames as that session's traffic |
| Forwarder.PumpTcp | crates/gr-client/src/forwarder.rs:313-329 | every read up to the first empty one becomes a frame, in order, numbered from 1, and none fails to encrypt |
| Forwarder.UdpForwarder.HandleDatagram | crates/gr-client/src/forwarder.rs:403-478 | uses the source's tunnel or opens one, advances its counter even when the datagram is too large, and leaves all other tunnels as they were |
| Forwarder.UdpForwarder.ReapRemove | crates/gr-client/src/forwarder.rs:385-389 | forgets the idle sources and changes no other tunnel |
| Forwarder.FrameDecrypts | crates/gr-client/src/forwarder.rs:465-472 | a frame exists if and only if its payload fits, shows its nonce in its header and decrypts to the payload |
| Protocol.HeaderDecodesItsEncoding | crates/gr-protocol/src/lib.rs:101-121 | a header is read back from its encoding whatever follows, and refused exactly when its version's low bits are not 1 |
| Protocol.HeaderReencodes | crates/gr-protocol/src/lib.rs:108-120 | a buffer decodes if and only if it has 13 octets and version 1, and it starts with the encoding of the result |
| Protocol.HeaderLayout | crates/gr-protocol/src/lib.rs:101-106 | the header's octets: version and each flag's bit, then connection id and sequence, most significant octet first |
| Protocol.HeaderRefusals | crates/gr-protocol/src/lib.rs:108-115 | how a buffer that is no header is refused |
| Protocol.NonceIsInHeader | crates/gr-protocol/src/lib.rs:127-132 | the nonce is the twelve header octets after the first |
| Protocol.NonceOnTheWire | crates/gr-protocol/src/lib.rs:127-132 | so a receiver reads it off the wire |
| Protocol.FrameLayout | crates/gr-protocol/src/lib.rs:136-160 | a frame is its header and the payload sealed under the nonce in it with the header as associated data; over 1200 octets it is refused |
| Protocol.FrameOpensExactlyWhen | crates/gr-protocol/src/lib.rs:163-176 | what decrypts, and to what, in octets |
| Protocol.FrameRefusals | crates/gr-protocol/src/lib.rs:163-176 | what does not is refused as too short, of another version or not authentic, exactly when each is the case |
| Protocol.SynLayout | crates/gr-protocol/src/lib.rs:189-220 | a SYN is its header, the public key, and the payload sealed with both as associated data |
| Protocol.SynOpensExactlyWhen | crates/gr-protocol/src/lib.rs:224-258 | what of a SYN can be read, and when, in octets |
| Protocol.SynRefusals | crates/gr-protocol/src/lib.rs:224-258 | how any other is refused |
| Protocol.NonceInjective | crates/gr-protocol/src/lib.rs:127-132 | nonces are equal if and only if connection id and sequence are |
| Protocol.FrameRoundTrip | crates/gr-protocol/src/lib.rs:136-176 | encryption succeeds if and only if the payload fits, and decryption gives back header and payload |
| Protocol.SynRoundTrip | crates/gr-protocol/src/lib.rs:189-258 | the front and the payload of a SYN are read back as they were written |
| Protocol.ConnectDecodesItsEncoding | crates/gr-protocol/src/lib.rs:286-329 | a request is read back from its encoding followed by any tail |
| Protocol.ConnectReencodes | crates/gr-protocol/src/lib.rs:302-328 | what decodes starts with the encoding of the result |
| Protocol.ConnectDecodable | crates/gr-protocol/src/lib.rs:302-328 | a buffer decodes if and only if it starts with some request's encoding |
| Protocol.ConnectLayout | crates/gr-protocol/src/lib.rs:289-300 | the request's octets: 1 for TCP and 2 for UDP, 4 or 16, address, port |
| Protocol.ConnectRefusals | crates/gr-protocol/src/lib.rs:302-315 | how a buffer that holds no request is refused |
| Protocol.Header.Encode | crates/gr-protocol/src/lib.rs:102-106 | fills the buffer with the header octets the round trips are about |
| Protocol.ConnectRequest.Encode | crates/gr-protocol/src/lib.rs:289-300 | builds the octets the round trips are about |
| Protocol.EncryptFrame | crates/gr-protocol/src/lib.rs:136-160 | builds the frame of the round trip, or refuses an oversized payload |
| Protocol.EncryptSynFrame | crates/gr-protocol/src/lib.rs:189-220 | builds the SYN of the round trip, or refuses an oversized payload |
| License.PayloadRoundTrip | crates/gr-protocol/src/license.rs:54-73 | payloads and 24-octet strings correspond one to one, negative times included |
| License.TokenRoundTrip | crates/gr-protocol/src/license.rs:113-129 | tokens and 88-octet strings correspond one to one; other lengths are refused |
| License.PayloadLayout | crates/gr-protocol/src/license.rs:55-62 | the payload's octets: user, two signed times, scope |
| License.TokenLayout | crates/gr-protocol/src/license.rs:113-118 | a token is its payload followed by its signature |
| License.VerifyExactly | crates/gr-protocol/src/license.rs:92-110 | any token is refused for a signature the key rejects, else for a time before its issue, else for one not before its expiry, and is good if and only if for none |
| License.IssuedTokenWindow | crates/gr-protocol/src/license.rs:83-110 | a token the backend signed is good if and only if issued_at <= now < expires_at |
| Crypto.BothEndsDeriveTheSameKey | crates/gr-protocol/src/handshake.rs:51-67 | client and bridge derive the same session key |
| Wire.FirstOctetLeads | crates/gr-protocol/src/lib.rs:104-105 | numbers are spelt with the most significant octet first |

## Left out

- Sockets, task scheduling, timeouts, the packet driver, checksums and the periods of the reapers: a step happens when a run says so, and a send always succeeds.
- JSON, TOML, hex, base64 and address text: `CidrText` starts from the two parsed numbers of a range, tokens and keys from their octets.
- ChaCha20-Poly1305, X25519, HKDF and Ed25519 themselves, and everything about secrecy or forgery: only the functional laws of `Crypto.Primitives` are used.
- Nonces across the two directions of a session, or across repeated SYNs under one key: the code supports the claim per direction and per session object only.
- The order in which the bridge passes client datagrams to the destination: each is handled by a task of its own, and the code keeps no order.
- AwsRegions.SortByKey: the sort is a stable sort on values, not in place; SortIsStable says which one.
- AwsRegions.AwsLookup.BinarySearch: the library's search may stop at any of several equal networks; this one promises no more than that, and no proof relies on which.
- Router.Rtt: round-trip times are reals or infinite; rounding and NaN are not modelled.
- Router.Router.Pick: the clock is read once per call where the code reads it up to three times, and calls are taken one at a time.
- Forwarder.UdpForwarder.HandleDatagram: the sequence counter wraps as the release build does; a debug build would stop after 2^64 datagrams. The frames a tunnel receives and their refreshing of its activity are not modelled.
- Forwarder.PumpTcp: a read that fails ends the loop like an empty one, and one that times out is no read.
- Bridge.BridgeState.AcceptNewSession: opening the destination is a yes-or-no answer, and nothing else happens meanwhile; with other tasks in between it is the steps AcceptCheck, AcceptFail and AcceptInsert.
- Bridge.BridgeState.ForwardData: the write to the destination is not modelled, only what is written.
- Transparency.TunnelsAreReadRightExactlyWhen: one flow table and datagrams from the local machine only; an unsent SYN counts as sent.
- EndToEnd.RepliesReachTheGameExactlyWhen: starts from the packet the listener's socket sends back to the source port; that the driver hands it over is in StartSmartMode.
- The capture loop's counters and cadence, `active_flows`, the lookup's `sync_token` and `create_date`, and the forward error correction wrapper, dashboard, command line, backend and directory services: plumbing or display around the parts above.
