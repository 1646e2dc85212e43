# caddy-consul: a verified model

caddy-consul turns the state of a Consul catalogue into live HTTP and TCP routing without
reloading Caddy's configuration. This project models its algorithms and state machines in
Dafny 4.11 and proves what they guarantee, for every input, every interleaving and every
run. `dafny verify dfyconfig.toml` checks all of it.

## What is proved

**TLS passthrough** (`Bytes`, `ClientHello`, `HelloLayout`, `HelloWire`, `TcpSni`, `TcpProxy`,
`EndToEnd`). `extractSNI` returns a name exactly for the byte strings that decompose into the
ClientHello layout of section 4.1.2 of RFC 8446 with a server_name extension as in section 3
of RFC 6066, and for every encoded ClientHello it returns the first host_name. Whatever the
pattern of short reads, a successful peek is invisible to whoever reads on. A connection is
routed as a plain scan of the route list would route it, by the name it offers.

**Listener handoff** (`ListenerPool`, `TcpListener`, `Drain`). In every interleaving of any
number of app instances the pool's reference count of a port is the number of its holders; a
reload never lets the count of a shared port reach zero; stopping twice releases once; the
in-flight counter always covers the tracked connections.

**Route compiler and lookup tables** (`Compiler`, `CompilerProofs`, `Keys`, `RouteTable`,
`TcpTable`, `HostMatch`, `AnswerOrder`, `TableOrder`). Every route that goes in is accounted
for, keys are unique, winners dominate losers, and compilation is, up to the order of the
compiled lists, independent of input order *exactly* when no two different claimants tie at
the top of one key. Since both tables break ties by list order, that is not all a request can
see: for every request it is proved which routes it can be answered with over all outcomes of
the unstable sort, and so *exactly* when its answer does not depend on the order. The TCP
index refines the flat list. The HTTP table answers with the earliest of the best-ranked
routes, and compiled routes with one host pattern never tie.

**Port allocation** (`PortProbe`, `UpstreamManager`, `PortSharing`). The probe loop ends exactly
under a stated guard and finds a free port if there is one. Over every run of syncs
that fit the range, whether they can be read and written or not, ports stay distinct, in range
and in step with the registration, unless writing fails for one that removes something. For every registration and memory it is proved *exactly*
when a sync leaves no two services on one port.

**Metadata** (`IndexedMeta`, `Metadata`, `MetaMeaning`, `TagMeaning`, `MetaRoundTrip`,
`Grouping`). What keys, tags and modifiers say is stated in terms of their text. Any list of
routes written as indexed metadata is read back as that list. Grouping declarations into
routes is a faithful group-by, every upstream stands for an instance that asks for routing, and the routes read from indexed metadata do not depend on the order the
map is walked in *exactly* when all spellings of a field read to the same value, a host being
ignored where the route has an sni.

**Watcher and persistence** (`HealthCache`, `Debounce`, `Converge`). The incremental health
cache follows the newest response, the debounce buffer loses nothing under any interleaving,
and skipping unchanged route tables is invisible on every serialized field across crashes
and restarts. The whole live table, no-cache matchers included, is always the one put in place
by the last restart or the last change of a serialized field.

`Prelude`, `Strings` and `Types` hold shared definitions. Where a definition is
shared by the code and its contract, a lemma says what it means in terms of the input (the
ones ending in `Exactly`, for the most part). The form follows the code: what it
computes by expressions is a function, what it does in loops or by updating fields is a
method or a class whose contract ties the new state to a function of the old one, and
concurrent parts are state machines over their atomic steps.

## Where the code differs from its own promises

The members named give, for each, an input that shows it and the exact condition under
which the promise holds (`FabioPanicsExactly` names all such inputs at once).

- `RouteTable.Match` promises that an exact host beats a wildcard; its ranking does not
  compare that (`WildcardCanBeatExact`, `ExactBeatsWildcardExactly`).
- "Deterministic conflict resolution" does not cover claimants tied on priority and service
  name, which one service can produce (`OneServiceCanTie`, `TieShows`,
  `CompilerProofs.OrderIndependentExactly`). Even without such ties the answer to a request
  can depend on the order of the input (`OrderCanShow` and `MatchOrderExactly` for HTTP,
  `TcpOrderCanShow` and `ScanOrderExactly` for TCP).
- The fallback size for an empty or inverted port range does not stop the probe loop from
  spinning forever (`ProbeCanSpin`, `ProbeEndsExactly`).
- Each upstream is to have a port of its own, but a new port is chosen against the remembered
  allocations only and not against the ports registered. Two services can be registered on
  one port once memory and registration differ: after a registration that failed
  (`FailedRegisterCanCollide`), since the ports removed are already forgotten, or after a
  restart without the saved allocations (`LostStateCanCollide`). `DistinctPortsExactly` gives
  the exact condition on registration, memory and range; `FailedRegisterAgreesExactly` says
  exactly when a failed registration leaves memory and registration in step.
- A change of only the no-cache matcher is not applied until another field changes, and a
  restart drops the matchers (`MatcherChangeIsSkipped`, `MatcherIsLiveExactly`,
  `RestartDropsMatchers`).
- `parseIndexedMeta` sorts its indices "for deterministic order", but two spellings of one
  index leave the routes to the map's iteration order (`LeadingZeroShows`,
  `SameForAllWalksExactly`).
- Route keys are meant to identify a host and a path, but the two are joined without a
  separator (`UnshapedKeysCollide`, `HttpKeyExactlyAll`; on well-formed routes
  `HttpKeyExactly`).
- `parseFabioTag` panics on a tag whose value is white space (`FabioPanicsExactly`).
- After a failed re-fetch, stale health flags are not repaired by repeating the response
  (`FailedRefetchCanGoStale`, `FailedRefetchAgreesExactly`, `StaleFlagsStay`).
- The comment on `peekClientHelloSNI` says that on an error the returned buffer holds whatever
  was read; the code returns nothing or the record header (`PeekLosesPartialHeader`,
  `PeekClientHelloSNI`).

## Model

| member | source | states |
|---|---|---|
| `ClientHello.ExtractSNI` | tcp_sni.go:88-151 | the cursor loops compute `Sni` for every byte string, and no name where they fail |
| `ClientHello.WalkExtensions` | tcp_sni.go:122-149 | the loop over the extensions finds the first host_name, absence or malformation as the recursive scan does |
| `ClientHello.WalkNames` | tcp_sni.go:137-148 | the loop over a ServerNameList likewise |
| `HelloLayout.SniExactly` | tcp_sni.go:88-151 | a name is returned if and only if the message decomposes into the ClientHello layout around that name |
| `HelloLayout.LayoutIsRead` | tcp_sni.go:88-151 | completeness: every message with the layout yields its name, whatever the skipped fields, earlier extensions and trailing bytes are |
| `HelloLayout.NameHasLayout` | tcp_sni.go:88-151 | soundness: whenever a name comes back, a valid layout rendering to exactly the input exists, with that name in it |
| `HelloLayout.RoundTrip` | tcp_sni.go:88-151 | parsing the encoding of any ClientHello gives the first host_name of its server_name extensions, or none |
| `HelloWire.ServerNameOnTheWire` | tcp_sni.go:88-151 | in bytes: a message whose extension block starts with type 0x0000 and a list starting with an entry of type 0 gives that entry's name, whatever the other fields hold |
| `HelloWire.OtherTypeOnTheWire` | tcp_sni.go:122-131 | in bytes: an extension of any other two-byte type makes no difference |
| `HelloWire.OtherNameOnTheWire` | tcp_sni.go:137-148 | in bytes: a list entry of any other type makes no difference |
| `TcpSni.ReadFull` | tcp_sni.go:48-51 | however short the reads, nothing read is lost, success means all bytes are there, and an end-of-file error means the stream is drained |
| `TcpSni.PlainBytes` | tcp_sni.go:53-63 | in bytes: a first byte other than 22, or a length of 0 or above 16384, makes the peek stop after five bytes without a name |
| `TcpSni.RecordBytes` | tcp_sni.go:59-77 | in bytes: otherwise the announced bytes are taken, and only a message of type 1 is searched for a name |
| `TcpSni.PeekClientHelloSNI` | tcp_sni.go:41-78 | results on success are a function of the stream alone and consumed and remaining bytes make up the stream; on an error what was consumed, what is returned and what is pending, and exactly when nothing is lost; without a deadline it succeeds exactly if the stream is long enough |
| `TcpSni.PeekLosesPartialHeader` | tcp_sni.go:29-51 | a stream of three header bytes is consumed and not returned, whatever the pattern of reads |
| `TcpSni.PeekAndWrap` | tcp_proxy.go:53-68 | after a successful peek the wrapped client still has the whole stream to give |
| `TcpSni.PrefixConn.Read` | tcp_sni.go:172-179 | a read hands out the next bytes of prefix then connection, dropping and repeating none |
| `TcpSni.NewPrefixConn` | tcp_sni.go:165-170 | the wrapped client still has prefix plus pending bytes to give; an empty prefix gives the connection itself |
| `TcpSni.Client.ReadAll` | tcp_sni.go:157-179 | any sequence of buffer sizes reads a prefix of the remaining bytes, and all of them up to EOF |
| `TcpSni.PeekAndReplay` | tcp_sni.go:41-78 | byte-exact replay: peek, wrap and read on give exactly the original stream on the TLS, non-TLS and implausible-length paths |
| `TcpProxy.PickUpstream` | tcp_proxy.go:100-132 | nil exactly if no upstream is healthy; otherwise a healthy one, the one owning the draw |
| `TcpProxy.Draw` | tcp_proxy.go:121-131 | every draw below the total is owned by an upstream in the loop; the trailing return is unreachable |
| `TcpProxy.ExactShares` | tcp_proxy.go:100-132 | of the draws below the total a healthy upstream owns exactly its weight, or 1 if that is not positive, and an unhealthy one none |
| `TcpProxy.OwnersAgree` | tcp_proxy.go:121-130 | no draw has two owners |
| `TcpProxy.TwoHealthyExactly` | tcp_proxy.go:116-118 | a draw is made exactly if two different upstreams are healthy |
| `TcpProxy.ChooseRoute` | tcp_proxy.go:45-75 | lookup, peek if the port has SNI routes, match: the plain scan's answer, with every byte of the stream still to be read |
| `TcpProxy.Handle` | tcp_proxy.go:45-83 | an upstream is chosen exactly if the scan answers with a route that has a healthy one, and is healthy |
| `TcpProxy.RecordRoundTrip` | tcp_sni.go:41-78 | an encoded ClientHello in one record of type 22 is peeked to its first host_name, whatever follows |
| `EndToEnd.RoutedByHostName` | tcp_proxy.go:45-75 | on an SNI port a client is routed by the host_name its ClientHello carries |
| `EndToEnd.NoPeekNoRoute` | tcp_proxy.go:53-59 | on a port with SNI routes a stream that ends before its announced record is not routed |
| `EndToEnd.PlainPortAnswer` | tcp_proxy.go:45-75 | on a port without SNI routes the first route of the port answers, whatever is sent |
| `EndToEnd.MatchedMeansProxied` | compiler.go:135-183 | on a compiled table every matched connection has a healthy upstream to go to |
| `EndToEnd.CompiledHttpIsWinner` | compiler.go:78-128 | a compiled HTTP route serves its key for the definition that won it, with that definition's service, tags, redirect, no-cache fields and, in their order, healthy upstreams |
| `EndToEnd.CompiledTcpIsWinner` | compiler.go:156-179 | likewise for TCP |
| `EndToEnd.CompiledTcpServable` | compiler.go:158-179 | compiled TCP routes have upstreams, all healthy |
| `EndToEnd.CompiledHttpServable` | compiler.go:83-128 | compiled HTTP routes are redirects without upstreams, or have upstreams that are all healthy |
| `ListenerPool.CountsAreHolders` | tcp_listener.go:83-149 | over every interleaving of all instances the reference count of each port is the number of its holders |
| `ListenerPool.StepKeepsInv` | tcp_listener.go:96-121 | each open, delete and close keeps that |
| `ListenerPool.ReloadHandoff` | consul.go:300-355 | if the incoming instance has a port before the outgoing one gives it up, its count is never zero at any point of the run |
| `ListenerPool.NoHolderNoReference` | tcp_listener.go:116-149 | a port nobody holds has no reference: nothing leaks |
| `TcpListener.TCPListenerManager.Reconcile` | tcp_listener.go:83-132 | afterwards a port is active exactly if it is asked for, not reserved, and was active or could be bound; only such ports are opened and only ports not asked for or reserved are dropped; reconciling again takes no step |
| `TcpListener.TCPListenerManager.Refuse` | tcp_listener.go:87-94 | the loop keeps the ports asked for that are not reserved |
| `TcpListener.TCPListenerManager.OpenMissing` | tcp_listener.go:96-114 | the opening loop, as pool steps |
| `TcpListener.TCPListenerManager.CloseStale` | tcp_listener.go:116-124 | the closing loop, as pool steps |
| `TcpListener.TCPListenerManager.StopListener` | tcp_listener.go:206-207 | one pool reference is given back |
| `TcpListener.TCPListenerManager.Close` | tcp_listener.go:137-149 | every reference of the instance is given back once; with nothing active no step is taken |
| `TcpListener.Reload` | consul.go:300-362 | Start of the incoming, Stop and Cleanup of the outgoing instance: every restored port that is not reserved and binds is active afterwards, shared ports keep a reference at every step and the second stop does nothing |
| `Drain.CounterCoversTracked` | tcp_listener.go:185-201 | in every interleaving the counter is tracked plus arriving plus leaving connections; zero means none is left |
| `Drain.ComesAndGoes` | tcp_listener.go:185-201 | a run: one connection is counted, tracked, deleted and subtracted |
| `Drain.ForceCloseReachesAll` | tcp_listener.go:206-226 | force-closing reaches every connection in flight exactly if none is between two of its steps |
| `Compiler.SortSlice` | compiler.go:26-31 | the slice becomes a sorted permutation of itself; ties end in any order |
| `Compiler.RouteCompiler.Compile` | compiler.go:22-54 | the result is `Compiled` of what the caller's sorted slice now holds |
| `Compiler.RouteCompiler.CompileHTTPRoutes` | compiler.go:57-132 | the claim loop gives the served first claimants and one conflict per later claimant |
| `Compiler.RouteCompiler.CompileTCPRoutes` | compiler.go:135-183 | likewise for port and SNI |
| `Compiler.RouteCompiler.Separate` | compiler.go:34-45 | the protocol switch splits the routes in order and warns about the rest |
| `Compiler.SplitByKind` | compiler.go:47-51 | claims of one family are not disturbed by the other |
| `Strings.LessExactly` | compiler.go:26-31 | the order of names: up to some position equal, and there the first one ends or is smaller |
| `Strings.LowerExactly` | route_table.go:43-44 | lower-casing makes equal exactly what is the same ignoring ASCII case |
| `Strings.AtoiExactly` | metadata.go:347-351 | a text is a number exactly if it is digits, perhaps signed, within 64 bits |
| `CompilerProofs.OrderIndependent` | compiler.go:22-54 | for any two orders and any outcome of the unstable sort the compiled routes, conflicts and warnings are the same multisets (the same up to list order), if no two different claimants tie at the top of a key |
| `CompilerProofs.OrderIndependentExactly` | compiler.go:25-31 | that condition is necessary as well |
| `AnswerOrder.AnswerIsPossible` | compiler.go:26-31 | whatever the sort makes of ties, a lookup is answered with a top claimant of its key that matches and to which some top claimant of every other key yields |
| `AnswerOrder.PossibleIsAnswered` | compiler.go:26-31 | and each such route is the answer for some outcome of the sort |
| `AnswerOrder.MissIsPossible` | compiler.go:78-116 | a lookup finds nothing only if every key has a top claimant that does not match or is not served |
| `AnswerOrder.PossibleIsMissed` | compiler.go:78-116 | and then for some outcome of the sort it finds nothing |
| `AnswerOrder.SettledExactly` | compiler.go:22-54 | a lookup by rank and position gives one answer for all outcomes of the sort exactly if all possible answers compile to one route and missing is not possible beside one |
| `AnswerOrder.DecidedSettledExactly` | compiler.go:22-54 | without ties at the top of a key that is: all matching winners that none is stronger than compile to one route |
| `TableOrder.MatchOrderExactly` | route_table.go:39-99 | for every request exactly when `Match` on the compiled table is independent of the order of the input |
| `TableOrder.ScanOrderExactly` | tcp_table.go:38-130 | for every port and server name likewise for the TCP table |
| `TableOrder.OrderCanShow` | route_table.go:87-95 | an exact host and a wildcard of one service without any tied key, answered differently for the two orders |
| `TableOrder.TcpOrderCanShow` | tcp_table.go:101-130 | two nested wildcards of one service on one port without any tied key, answered differently for the two orders |
| `EndToEnd.OneServiceCanTie` | metadata.go:143-184 | two declarations of one instance become two routes that tie at the top of one key |
| `CompilerProofs.TieShows` | compiler.go:25-31 | a tie at the top gives another sorted order with other winner/loser pairs |
| `CompilerProofs.Conservation` | compiler.go:22-183 | the multiset of routes is that of the warned, compiled, idle and beaten ones |
| `CompilerProofs.ConservationOfCounts` | compiler.go:22-183 | the counts of the configuration add up to the input |
| `CompilerProofs.WinnersCount` | compiler.go:68-78 | a route wins once, and only as the first claimant of its key |
| `CompilerProofs.ConflictsCount` | compiler.go:68-75 | every further occurrence of a claimant is one conflict with the winner of its key |
| `CompilerProofs.CompiledKeysDistinct` | compiler.go:61-131 | no two compiled routes carry one key |
| `CompilerProofs.Dominance` | compiler.go:26-31 | winner and loser claim one key and the winner has the higher priority, or the same and a name not after the loser's |
| `CompilerProofs.KeyServed` | compiler.go:78-116 | a later claimant never takes over from an idle first one |
| `EndToEnd.KeyServedExactly` | compiler.go:78-165 | the compiled configuration has a route for a key exactly if the first definition claiming it is an HTTP redirect or has at least one healthy upstream |
| `EndToEnd.HealthyCounts` | compiler.go:100-107 | a compiled route lists the healthy upstreams of its definition, each as often, and no other |
| `EndToEnd.WarningsExactly` | compiler.go:40-44 | warnings name exactly the definitions of another protocol |
| `Keys.HttpKeyExactly` | compiler.go:210-218 | on shaped routes keys are equal exactly if host and path are, up to the defaults |
| `Keys.HttpKeyExactlyAll` | compiler.go:210-218 | for all hosts and paths keys are equal exactly if one pair is the other with the boundary moved |
| `Keys.UnshapedKeysCollide` | compiler.go:210-218 | without the shape two routes can share a key |
| `Keys.TcpKeyInjective` | compiler.go:254-259 | the key determines port and SNI |
| `Keys.NoTies` | route_table.go:87-95 | two compiled routes with one host pattern never tie for a request |
| `Keys.CompiledTcpDistinct` | compiler.go:142-156 | after compilation port and SNI identify a route |
| `Keys.PlainPortHasOneRoute` | tcp_table.go:101-107 | a port without SNI routes holds exactly one route |
| `RouteTable.RouteTable.Match` | route_table.go:39-99 | the earliest route that matches and is not outranked; none exactly if nothing matches |
| `RouteTable.RequestNormalised` | route_table.go:43-54 | letter case of the request host does not matter, and its port is cut off for patterns without one |
| `RouteTable.MatchesWithPort` | route_table.go:39-87 | a request for host:port: a pattern with a port is held against both, one without against the host, ignoring case, and the path is the root or a prefix |
| `RouteTable.MatchesWithoutPort` | route_table.go:39-87 | a request for a host without a port likewise |
| `RouteTable.WithOrWithoutPort` | route_table.go:47-50 | every request is of one of the two forms |
| `RouteTable.OutranksExactly` | route_table.go:74-91 | the ranking: a port first, then the longer path, the root being shortest |
| `RouteTable.PatternFitsExactly` | route_table.go:138-151 | a pattern fits a name exactly if it is empty, a wildcard above the name, or the name itself |
| `HostMatch.WildcardExactly` | route_table.go:138-151 | a wildcard matches exactly the names ending in a dot and its domain |
| `HostMatch.HasPortExactly` | route_table.go:119-134 | a pattern has a port exactly if it is a host, a colon and digits |
| `RouteTable.BestIsUnique` | route_table.go:89-91 | that determines the answer |
| `RouteTable.WildcardCanBeatExact` | route_table.go:30-95 | a wildcard with a longer path beats an exact host |
| `RouteTable.ExactBeatsWildcardExactly` | route_table.go:30-95 | for every table and request, the answer is an exact host exactly if some matching exact host beats every matching wildcard by port, path and position |
| `RouteTable.ClassWinsExactly` | route_table.go:89-91 | the same for any class of routes |
| `TcpTable.PortRoutes.Match` | tcp_table.go:101-130 | the loop answers as the plain scan: first exact SNI, else first wildcard, else first default |
| `TcpTable.ShortcutIsScan` | tcp_table.go:102-107 | the `anySNI` shortcut gives the scan's answer |
| `TcpTable.TCPTable.Update` | tcp_table.go:38-55 | the index holds, per port with routes, these routes in order and whether any has an SNI |
| `TcpTable.IndexRefinesScan` | tcp_table.go:38-130 | lookup then match equals the scan of the whole route list restricted to the port |
| `TcpTable.FlatScanExactly` | tcp_table.go:101-130 | for every list, port and name the answer is the earliest of the best-fitting routes (same name ignoring case, then wildcard, then no name), and none exactly if none fits |
| `TcpTable.EarliestIsUnique` | tcp_table.go:101-130 | that determines the answer |
| `PortProbe.ProbeEndsExactly` | upstream_manager.go:184-211 | the loop ends exactly under the guard `Ends`, and within range-size moves over a proper range |
| `PortProbe.ProbeCanSpin` | upstream_manager.go:184-211 | an empty range and two used ports on which no number of moves ends the loop |
| `PortProbe.FindsFree` | upstream_manager.go:189-211 | for any hash the result is in range, and free exactly if some port in range is |
| `PortProbe.FoundIsNext` | upstream_manager.go:200-211 | every port between the hashed one and the one found, going up and wrapping, is taken |
| `PortProbe.Pigeonhole` | upstream_manager.go:207-210 | fewer used ports than the range has leaves one free |
| `UpstreamManager.UpstreamManager.Probe` | upstream_manager.go:200-211 | the loop ends where `Landing` says, over every range on which the code ends |
| `UpstreamManager.UpstreamManager.AllocatePort` | upstream_manager.go:178-215 | a remembered port is kept, a new one is the hashed one if free and the probed one otherwise, nothing else changes |
| `UpstreamManager.AllocateKeepsGood` | upstream_manager.go:178-215 | below capacity an allocation keeps ports distinct and in range and moves none |
| `UpstreamManager.AllocateAllKeepsGood` | upstream_manager.go:178-215 | so does every sequence of allocations that fits the range |
| `UpstreamManager.ProperRangeReturns` | upstream_manager.go:178-215 | over a proper range every sequence of allocations returns |
| `UpstreamManager.Restarted` | upstream_manager.go:46-57 | restored allocations are kept: a service has its port across a restart |
| `UpstreamManager.UpstreamManager.SyncUpstreams` | upstream_manager.go:75-173 | the error, unchanged, registering and failing-to-register outcomes and the state each leaves, for every range over which it returns |
| `UpstreamManager.SyncRegistersDesired` | upstream_manager.go:88-142 | a registering sync leaves exactly the desired names, retained services on their ports |
| `UpstreamManager.SyncRemembers` | upstream_manager.go:117-137 | afterwards exactly the services not removed are remembered, each with the port it had or was given |
| `UpstreamManager.AsMapExactly` | upstream_manager.go:88-94 | of several registered entries of a name the last one counts |
| `UpstreamManager.SyncKeepsAgreement` | upstream_manager.go:88-142 | registration and allocations stay in step and ports pairwise distinct |
| `UpstreamManager.RunKeepsAgreement` | upstream_manager.go:75-173 | over every run of syncs, unreadable, unchanged, not written without removals or written, that fit the range |
| `UpstreamManager.FailedRegisterAgreesExactly` | upstream_manager.go:130-164 | after a failed registration they agree exactly if nothing was being removed, whatever the range and the ports in use |
| `UpstreamManager.FailedRegisterCanCollide` | upstream_manager.go:130-164 | after a failed registration with a removal two services can end on one port |
| `PortSharing.DistinctPortsExactly` | upstream_manager.go:75-215 | for every registration, memory, desired set and proper range: no hash puts two services on one port exactly if the ports not chosen are distinct and either none is chosen, or there is room and those of the range are remembered, or one is chosen in a full range that holds none of them |
| `PortSharing.ClearIsDistinct` | upstream_manager.go:88-142 | under that condition ports end distinct |
| `PortSharing.UnclearIsShared` | upstream_manager.go:195-211 | without it some hash puts two services on one port |
| `PortSharing.RoomSuffices` | upstream_manager.go:178-215 | if there is room, new services get different free ports of the range, whatever is remembered |
| `PortSharing.OverflowShares` | upstream_manager.go:207-210 | with more new services than free ports two can get one port |
| `PortSharing.AgreedIsClear` | upstream_manager.go:88-142 | where registration and memory agree, ports are distinct and there is room, the condition holds |
| `PortSharing.LostStateCanCollide` | upstream_manager.go:88-127 | a restart without the saved allocations, with nothing removed and no failed registration, can put two services on one port |
| `IndexedMeta.GroupedAt` | metadata.go:309-325 | a field holds the value of the last key in map order that spells it |
| `IndexedMeta.SameForAllOrders` | metadata.go:309-325 | every order of the map gives the same group map if no field is spelled twice with different values |
| `IndexedMeta.OrderIndependentExactly` | metadata.go:309-325 | and only then |
| `Metadata.ParseIndexedMeta` | metadata.go:307-398 | one route per index, in ascending index order, from the fields of that index |
| `MetaMeaning.SpellsExactly` | metadata.go:311-320 | a key spells an index and a field exactly if it is caddy-route-, digits, a dash and the field, and the index fits an int |
| `MetaMeaning.IsIndexedExactly` | metadata.go:311-315 | a key is indexed exactly if it has that form |
| `MetaMeaning.AbsentMeansDefault` | metadata.go:340-394 | what a field that is not written stands for, and that an sni is the host |
| `MetaMeaning.PlainRouteExactly` | metadata.go:251-304 | a route from plain keys, key by key |
| `MetaMeaning.HasIndexedExactly` | metadata.go:66-67 | indexed metadata is there exactly if some key spells an index and a field |
| `MetaMeaning.HasNonIndexedExactly` | metadata.go:241-248 | plain metadata is there exactly if some key starts with caddy- and is not indexed |
| `MetaMeaning.TagValuesExactly` | metadata.go:190-205 | a tag value is that of the first key=value tag with that key |
| `MetaMeaning.ModifiersExactly` | metadata.go:439-446 | a modifier is that of the last key=value word with that key |
| `Metadata.IndexedRoutesOrderIndependent` | metadata.go:307-398 | any two walks of the map give the same route list if all spellings of a field read alike |
| `Metadata.SameForAllWalksExactly` | metadata.go:307-398 | and only then |
| `Metadata.SameReadingSameRoute` | metadata.go:340-394 | a route is determined by what its known fields read to, a host not counting beside an sni |
| `Metadata.OtherReadingOtherRoute` | metadata.go:340-394 | and a field that reads differently makes another route |
| `MetaRoundTrip.LeadingZeroShows` | metadata.go:309-325 | a path spelled under an index and under that index with a leading zero leaves the routes to the map order |
| `MetaRoundTrip.RouteFromFields` | metadata.go:340-394 | reading the fields written for a route gives the route back, field by field |
| `MetaRoundTrip.IndexedRoundTrip` | metadata.go:307-398 | any list of routes written as indexed metadata is read back as that list, in whatever order the map is walked |
| `MetaRoundTrip.NonIndexedRoundTrip` | metadata.go:251-304 | likewise one route under plain keys |
| `Metadata.FabioPanicsExactly` | metadata.go:428-437 | which tags make the parser index an empty slice |
| `TagMeaning.HttpTagExactly` | metadata.go:428-517 | round trip: any host, path and modifiers written as a tag read back as the route they say; a standard port is dropped, or the tag skipped if it redirects |
| `TagMeaning.TcpTagExactly` | metadata.go:428-494 | round trip: a TCP tag reads back as its port, or as nothing if that is no positive number |
| `TagMeaning.FabioRoutesOfMore` | metadata.go:406-423 | only tags that start with urlprefix- count, and they are read one by one in order |
| `TagMeaning.RedirectRead` | metadata.go:470-480 | a redirect modifier CODE,URL with a code of 300 to 399 is taken, with $path replaced |
| `TagMeaning.NoRedirect` | metadata.go:470-480 | and any other is not |
| `TagMeaning.FirstPathReplaced` | metadata.go:477 | $path is replaced wherever it occurs, from left to right |
| `TagMeaning.WordsAfterSpace` | metadata.go:436-437 | a tag is cut into words at white space |
| `Metadata.FabioRoutesAreShaped` | metadata.go:495-515 | HTTP routes from Fabio tags have the shape that makes keys injective |
| `Metadata.ParseFabioTags` | metadata.go:406-423 | the routes of the tags in order, or a panic exactly if some tag panics |
| `Metadata.ParseInstance` | metadata.go:66-107 | indexed before plain metadata before Fabio tags, from the instance's own data |
| `Metadata.CollectRoutes` | metadata.go:33-116 | phase 1: the declarations of every instance that is healthy, has an address and asks for routing by tag or metadata, stamped with its own upstream, in instance order |
| `Metadata.ParseServiceRoutes` | metadata.go:28-185 | the grouping of exactly the declarations of the instances that are healthy, have an address and ask for routing |
| `Metadata.UpstreamsPerInstance` | metadata.go:40-116 | the upstreams under a signature are, in instance order, one per route an instance itself declared with it |
| `Metadata.UpstreamStandsFor` | metadata.go:40-66 | every upstream of a route is the address:port, weight and node of an instance that asks for routing and itself declared the route |
| `Metadata.InstanceIsUpstream` | metadata.go:60-116 | and every instance that declared it is there |
| `Metadata.RouteIsDeclared` | metadata.go:108-116 | a returned route is one that an instance declared, under the service's name and with that instance's tag values, otherwise unchanged |
| `Metadata.EligibleExactly` | metadata.go:41-51 | which instances count |
| `Grouping.GroupRoutes` | metadata.go:143-184 | phases 2 and 3 give the enabled signatures in first-seen order with their upstreams |
| `Grouping.FaithfulGroupBy` | metadata.go:143-184 | one route per enabled signature and no other, in declaration order, each upstream as often as it declared the signature |
| `Grouping.FirstDeclarationCounts` | metadata.go:143-171 | service name, routing tag and tag values of a route are those of its first declaration |
| `Grouping.SignatureExactly` | metadata.go:124-161 | declarations are grouped exactly if they agree on these fields |
| `Grouping.FirstSeenOrder` | metadata.go:143-171 | a signature listed earlier was declared earlier |
| `HealthCache.BuildPassing` | watcher.go:328-338 | the map holds exactly the service IDs the checks list |
| `HealthCache.SameIDSet` | watcher.go:440-450 | comparing sizes and one inclusion is set equality |
| `HealthCache.ConsulWatcher.HandlePassing` | watcher.go:340-422 | the new cache, the services to re-fetch, and a change exactly for each service with a flipped flag |
| `HealthCache.ConsulWatcher.RefreshService` | watcher.go:402-412 | flags become membership in the passing set; a change is reported exactly if one flipped |
| `HealthCache.NeedsRefetchExactly` | watcher.go:358-397 | a re-fetch is asked for exactly if the passing IDs of a routable, cached service changed and one of them is of no cached instance, or nothing is cached |
| `HealthCache.FlagAfter` | watcher.go:353-412 | what a response does to each flag |
| `HealthCache.ResponseKeepsAgreement` | watcher.go:353-412 | a service in agreement and not waiting for a re-fetch agrees with the new response |
| `HealthCache.CacheFollowsResponses` | watcher.go:340-422 | over every run of responses about cached IDs, every flag equals membership in the newest passing set |
| `HealthCache.AgreesAfterExactly` | watcher.go:371-412 | for every cache and response a service agrees with the response before any re-fetch exactly if it was updated in place or its flags already fitted |
| `HealthCache.FailedRefetchAgreesExactly` | watcher.go:454-464 | from agreement, a failed re-fetch leaves agreement exactly if none was needed or the response equals the last one on the cached IDs |
| `HealthCache.FailedRefetchCanGoStale` | watcher.go:392-418 | an instance that fails while another appears stays flagged healthy, however often the response is repeated |
| `HealthCache.StaleFlagsStay` | watcher.go:358-363 | over every run of responses that repeat a service's passing IDs its flags agree exactly if they agreed before |
| `Debounce.NothingIsLost` | watcher.go:625-677 | in every interleaving taken batches plus buffer are the queued sequence, a non-empty buffer will be flushed, and snapshots show their batch |
| `Debounce.QuietMeansDelivered` | watcher.go:646-677 | with the timer idle and all flushes returned, everything queued was delivered |
| `Debounce.TwoChangesOneBatch` | watcher.go:625-677 | a run: two changes queued before the timer fires are delivered in one batch, with nothing left behind |
| `Debounce.Buffer.QueueChanges` | watcher.go:625-643 | the critical section is the machine's queue step |
| `Debounce.Buffer.TakePending` | watcher.go:646-651 | the critical section is the machine's take step |
| `Converge.SkipIsInvisible` | consul.go:587-614 | over every run of converges, saves, torn files, crashes and restores the stored hash fits the stored routes, and after a converge the live table equals the compiled routes on every serialized field |
| `Converge.ViewExactly` | types.go:166-179 | tables are serialized alike exactly if they agree on every field but the matcher |
| `Converge.RestoreServesSaved` | consul.go:201-212 | a restart serves exactly what was written last, without matchers, whatever crashes, converges and unwritten saves came between |
| `Converge.LiveIsLastSet` | consul.go:587-597 | in every run the live table is, matchers included, the one put in place by the last restart or the last converge that changed the serialized view |
| `Converge.LastSetExists` | consul.go:587-597 | every run with a running instance has such a last step |
| `Converge.MatcherIsLiveExactly` | consul.go:588-597 | a converge with that view is live as compiled exactly if every route has the matcher it had in that table |
| `Converge.RestartDropsMatchers` | consul.go:201-212 | after a restart every converge with the saved view serves that view without matchers, which is the compiled table exactly if it has none |
| `Converge.MatcherChangeIsSkipped` | types.go:176 | a change of the matcher alone keeps the old one live, and a restart then serves none |
| `Converge.ConsulRouter.Provision` | consul.go:201-212 | a new instance starts from the state file |
| `Converge.ConsulRouter.ApplyHTTP` | consul.go:587-597 | the table-update part of a converge |
| `Converge.ConsulRouter.PersistHTTP` | consul.go:603-614 | the persist part of a converge, for each outcome of writing |

## Left out

- Consul HTTP calls, blocking-query loops, backoff and TTLs (`register.go`, `connect.go`, the query parts of `watcher.go`): replies are inputs.
- Sockets, deadlines, half-close and Caddy's real listener pool: a byte stream with scripted reads and a reference count stand for them.
- `handler.go`, `http.go`, `admin.go`, `metrics.go`, `route_info.go`, `config.go`, logging: plumbing over libraries that are not part of this model.
- `status_match.go`: the status specification parser is a parameter of the compiler; a matcher is represented by its text.
- `FilterTCPRoutesByNode`, `reconcileServices`: the routes after node filtering and the set of routable services are inputs of the model.
- `fetchServiceHealth`: its reply replaces the cached instances of a service or, on an error, nothing; how the reply is built from agent data is not modelled, and its effect on the debounce machine is that machine's update step.
- The Connect and l4_mode passes of `onServicesChanged` between parsing and compiling.
- UTF-8, Unicode case folding and Unicode white space beyond Latin-1: strings are sequences of characters with ASCII lower-casing; integers are unbounded except where text is converted to an int.
- File encoding and SHA-256: the state file is a value without the no-cache matcher, and the hash is taken to be free of collisions on it.
- The text of conflict reasons and warnings: the routes they speak of are kept.
- TcpProxy.PickUpstream: the sum of weights does not overflow, so its `total <= 0` branch is never taken; the draw is an argument.
- UpstreamManager.UpstreamManager.SyncUpstreams: says nothing of a call whose probe loop spins; its precondition excludes exactly those, and every proper range meets it.
- CompilerProofs.OrderIndependent: compares lists up to their order, as does CompilerProofs.OrderIndependentExactly; what the order does to lookups is stated by `MatchOrderExactly` and `ScanOrderExactly`.
- Debounce.NothingIsLost: covers runs up to `Stop`; concurrent flushes call back in any order, so the order stated is the order in which batches were taken.
- HealthCache.CacheFollowsResponses: the set of routable services and the cached IDs do not change during the run; other responses are covered one at a time by ResponseKeepsAgreement.
- Converge.SkipIsInvisible: whole converges are serialized.
- TcpListener.Reload: composes the two instances' methods one after the other; arbitrary interleavings are covered by ListenerPool.ReloadHandoff.
