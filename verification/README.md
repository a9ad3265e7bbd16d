# Verified model of ShadowVPN

A Dafny model of the parts of ShadowVPN that decide where packets go and what peers are told, with
proofs of what those parts promise. Nothing in it runs the original program.

ShadowVPN is a UDP tunnel. Its server either translates addresses for clients that all share one
configuration (NAT mode), or learns which tunnel address is behind which UDP endpoint and hands out tunnel
addresses by node id (learning mode). In learning mode clients also advertise subnets and host names to it.
Clients answer DNS for those names, intercept DNS on the tunnel device, and may wrap datagrams to look like
other traffic.

Each stateful part is modelled twice. A specification on values (datatypes, functions, step relations)
carries the theorems: what every step keeps, what holds in every run, when a request is refused, what a
round trip gives back. A class or a method with the loops and the in-place updates of the original is proved
to compute that specification.

| file | what it models |
|---|---|
| `Bytes`, `Ring`, `Prefix`, `Text` | big-endian fields, the wrap-around probe and set counting, address masks, UTF-8 |
| `Checksum`, `Rewrite`, `Pool`, `Nat` | one's-complement checksums, in-place address rewriting, the lease pool, the NAT |
| `LeaseTable`, `LeaseLaws`, `LeaseRuns`, `Assigner` | the node-id assigner: tables, laws, whole runs and reloads, the object |
| `Messages`, `Codec`, `CodecLaws`, `Wire`, `CodecLoops` | control messages, their wire form, round trips, the grammar the parser recognizes, the encoder and parser loops |
| `Subnets`, `SubnetTable` | advertised routes, approval and longest-prefix lookup; the vector changed in place |
| `Labels`, `Names`, `NameTable`, `MagicDns` | host-name sanitizing, unique names, the name table object, the client's resolver table |
| `Server`, `ServerLaws`, `ServerEffects`, `ServerTables`, `Relearning`, `ServerNames`, `LearnState` | the learning-mode server as a state machine over raw datagrams, its invariants, where packets go and what each step leaves in the tables, exactly which addresses stay in agreement, names over runs, the object |
| `Dns`, `DnsMessages`, `DnsGrammar`, `DnsEcho` | compressed DNS names, questions, synthesized replies, answer sections, the message format of RFC 1035, exactly when a reply repeats the question |
| `Obfs`, `ChnRoute`, `Intercept` | carrier obfuscation, the merged China route table, DNS interception on the tunnel device |

How the outside world appears: clocks, random bytes, the hash of a node id and received bytes are parameters.
The order in which a hash map is walked is left open: results are stated as listing a set, each element once,
and which of several oldest leases is reclaimed is any of them. A clock is a number of nanoseconds, and a
time in the future counts as just now, as in the original.

Where the code does less than its comments or tests suggest, the model follows the code:

- A rewrite can turn a valid UDP checksum into 0, which a receiver reads as "no checksum";
  `Rewrite.UdpChecksumLostExactly` says exactly when. Rewriting there and back turns a checksum of 0xFFFF into 0.
- `name_bytes` cuts back over continuation bytes even when it has nothing to cut, so a message with a name
  whose last byte within the limit is not ASCII is not parsed at all by the receiver, and no other is lost
  (`CodecLaws.AdvertLostExactly`, `CodecLaws.PushLostExactly`).
- `unique_name` falls back to a label that is taken once all its candidates are: names are unique only while
  one is free (`Names.AdvertiseKeepsOkExactly`, `Names.CrowdCollides`).
- A server without IPv6 keeps an IPv6 lease loaded from disk but its replies never name it, so an endpoint
  learned for it can go stale. `Relearning.AgreesExactly` proves that this is the only way in which a learned
  address ever disagrees with its lease, and that it happens for every such lease in some run.
- A reply copies the question's bytes but not the header's, so a compressed question that reads header bytes
  can be read differently from the reply (`DnsEcho.RepliesEchoExactly`, `DnsEcho.EchoLost`).
- A merged route table finds the start of a reversed range although the range covers nothing
  (`ChnRoute.FoundIsCoveredExactly`).
- A DNS response for 65536 or more addresses announces only the count modulo 65536; the model states what a
  reader then sees.

## Model

| member | source | states |
|---|---|---|
| `Checksum.Fold` | src/nat.rs:233-236 | the carry-fold loop ends at 0 for a zero sum and otherwise at the residue modulo 0xFFFF written as 1..0xFFFF, for every 32-bit sum |
| `Checksum.AdjustedCompensates` | src/nat.rs:225-237 | the incremental update compensates the change of both address words exactly modulo 0xFFFF (section 3 of RFC 1624) |
| `Checksum.AdjustedIsAllOnes` | src/nat.rs:225-237 | the updated checksum is 0xFFFF only for the one combination of inputs whose accumulator is zero |
| `Checksum.AdjustedBack` | src/nat.rs:225-237 | updating there and back restores a checksum if and only if it was not 0xFFFF, which comes back as 0 |
| `Rewrite.RewriteAddr` | src/nat.rs:184-221 | in-place rewriting of the byte array leaves the packet `Rewritten` describes, whose every byte `RewriteReplaces`, `HeaderChecksumKept`, `TcpChecksumKept` and `UdpChecksumKept` determine |
| `Rewrite.RepairTransport` | src/nat.rs:195-216 | the transport checksum is repaired in place: of exactly the TCP and UDP packets that `TcpChecksumKept` and `UdpChecksumKept` speak of, and no byte behind the header in all others |
| `Rewrite.AdjustChecksum` | src/nat.rs:225-237 | the method computes the incremental update |
| `Rewrite.RewriteFrame` | src/nat.rs:184-221 | a rewrite stores the address, changes the two checksums and no other byte, and `addr_at` then reads the new address |
| `Rewrite.RewriteReplaces` | src/nat.rs:184-221 | only the address, bytes 10 and 11, and, in a first fragment, bytes 16 and 17 of a TCP segment or 6 and 7 of a UDP datagram with a checksum can change; the address is stored; in any other packet no byte behind the header changes |
| `Rewrite.HeaderChecksumKept` | src/nat.rs:184-221 | for every packet `addr_at` accepts, the IPv4 header checksum is valid after a rewrite if and only if it was before (section 3.1 of RFC 791) |
| `Rewrite.TransportChecksumKept` | src/nat.rs:195-216 | the TCP or UDP sum over pseudo-header and segment keeps its residue over any extent that covers the checksum, so valid stays valid and invalid invalid |
| `Rewrite.TcpChecksumKept` | src/nat.rs:195-205 | in every first fragment with protocol 6 that holds its checksum, the TCP sum is valid after a rewrite if and only if it was before |
| `Rewrite.UdpChecksumKept` | src/nat.rs:206-216 | likewise with protocol 17 and a checksum other than 0 |
| `Rewrite.UdpChecksumLostExactly` | src/nat.rs:206-214 | exact condition under which a UDP checksum that was present is repaired to 0, which means "no checksum" |
| `Rewrite.UdpChecksumLostExample` | src/nat.rs:206-214 | a concrete valid UDP packet whose checksum a rewrite turns into 0 |
| `Rewrite.HeaderChecksumRestored` | src/nat.rs:184-221 | rewriting back restores the header checksum word if and only if it was not 0xFFFF |
| `Rewrite.TransportPosKept` | src/nat.rs:195-216 | the transport checksum to repair is found at the same place after a rewrite, unless it was a UDP checksum that became 0 |
| `Rewrite.RewriteRoundTrip` | src/nat.rs:161-221 | rewriting an address and rewriting it back restores every byte of the packet if and only if no checksum was 0xFFFF and no UDP checksum was lost |
| `Nat.StepKeepsBijection` | src/nat.rs:78-141 | ingress, touch, egress and reap keep peers, internal addresses and leased addresses in bijection over assignable addresses |
| `Nat.RunKeepsBijection` | src/nat.rs:33-141 | so in every state of every run |
| `Nat.PeersCounted` | src/nat.rs:33-53 | as many peers as internal addresses as leases, never more than `capacity()` |
| `Nat.ExhaustedExactly` | src/nat.rs:78-109 | ingress reports exhaustion exactly for a new peer with a parseable packet when `capacity()` peers are mapped |
| `Nat.EgressFindsOwner` | src/nat.rs:122-129 | egress answers a peer exactly when the destination is that peer's internal address, so the owner is unique |
| `Nat.MappingOrigin` | src/nat.rs:78-109 | in every run each mapping was created by one ingress packet of that peer, has not changed since, and holds that packet's source address |
| `Nat.EgressRestoresPlaceholder` | src/nat.rs:122-129 | in every run egress hands a packet to the peer mapped there with the destination rewritten to the source of the packet that created the mapping |
| `Nat.IngressReplacesSource` | src/nat.rs:78-109 | an accepted packet leaves with its peer's one internal address as source, its destination as received and otherwise only checksums changed; that address is the peer's own or was nobody's; a refused packet and the tables stay as they were |
| `Nat.EgressReplacesDestination` | src/nat.rs:122-129 | a packet for a mapped address leaves with the peer's placeholder as destination and its source as received; any other is not touched |
| `Nat.MappingStands` | src/nat.rs:78-141 | over a run, a mapping that is there at every step in between is the same at the end |
| `Nat.RepliesReturn` | src/nat.rs:78-129 | end to end over runs: a packet sent to the new source of a translated packet is given, while that peer's mapping stands, to the same peer, addressed to the source of the packet that created the mapping |
| `Nat.SweepDropsIdle` | src/nat.rs:113-141 | after traffic from or for a peer, a sweep drops it exactly when that traffic is more than the lease time ago, and otherwise leaves its mapping as it was |
| `Nat.TranslationKeepsChecksums` | src/nat.rs:78-129 | in either direction the translated packet has valid header and transport checksums exactly when the original had |
| `Nat.ReapCounted` | src/nat.rs:132-141 | a sweep drops exactly one peer per expired lease |
| `Nat.Translator.constructor` | src/nat.rs:63-69 | a new translator maps nobody and leases from the host range of the server address under the netmask |
| `Nat.Translator.Ingress` | src/nat.rs:78-109 | outcome, rewritten bytes and new tables are those of the specification, which `IngressReplacesSource` and `RepliesReturn` determine |
| `Nat.Translator.Touch` | src/nat.rs:113-117 | refreshes the lease of a known peer and nothing else |
| `Nat.Translator.Egress` | src/nat.rs:122-129 | answered peer, rewritten bytes and refreshed lease are those of the specification |
| `Nat.Translator.Reap` | src/nat.rs:132-141 | drops exactly the mappings of expired leases and counts them |
| `Pool.HostRangeHolds` | src/pool.rs:36-44 | for every netmask the host range holds each address of the subnet but its network and broadcast addresses |
| `Pool.HostRangeIsInterior` | src/pool.rs:36-44 | for a netmask of contiguous ones it holds exactly those |
| `Pool.CapacityCounts` | src/pool.rs:63-73 | `capacity()` is the number of addresses that can ever be handed out |
| `Pool.AllocateExact` | src/pool.rs:77-96 | allocation fails exactly when every assignable address is leased; otherwise it leases one free assignable address and changes no other lease |
| `Pool.JustFreedIsLast` | src/pool.rs:77-96 | the address allocated last, once released, is not allocated next while another is free |
| `Pool.LeasePool.constructor` | src/pool.rs:49-60 | an empty pool over the host range of address and netmask with the cursor at its start |
| `Pool.LeasePool.Allocate` | src/pool.rs:77-96 | the cursor loop finds the first free address from the cursor on, wrapping around, and advances past it |
| `Pool.LeasePool.Refresh` | src/pool.rs:100-107 | restamps a leased address and says whether it was one |
| `Pool.LeasePool.Reap` | src/pool.rs:116-128 | removes and returns exactly the leases idle for longer than the lease time |
| `Ring.ProbeVisitsEachOnce` | src/pool.rs:77-96 | the wrap-around probe visits every address of the range exactly once |
| `Ring.ProbeComplete` | src/assign.rs:285-312 | a probe of the whole range fails exactly when no address in it is acceptable, and otherwise ends on an acceptable one |
| `LeaseTable.PickExact` | src/assign.rs:285-328 | choosing addresses (hint first, then the probe from the hashed offset) fails exactly when no address is acceptable |
| `LeaseLaws.DropIsWithout` | src/assign.rs:393-405 | dropping a lease index by index removes exactly what refers to the node from all four maps |
| `LeaseLaws.AllocateConsistent` | src/assign.rs:161-283 | a request keeps `by_node`, `by_ip4` and `by_ip6` exact inverses and every bound endpoint the last one of its node |
| `LeaseLaws.LoadConsistent` | src/assign.rs:461-540 | loading any rows keeps them so and binds no endpoint |
| `LeaseLaws.EarlierRowsWin` | src/assign.rs:461-540 | what the first rows of a file gave is there unchanged after all of them |
| `LeaseLaws.RowIsLoaded` | src/assign.rs:461-540 | a readable, unexpired row whose node and addresses no earlier row has taken is loaded as it stands |
| `LeaseLaws.AllocateFits` | src/assign.rs:161-202 | a request keeps every lease on an assignable address, with IPv6 the one that embeds it |
| `LeaseLaws.LeasedWithinCapacity` | src/assign.rs:115-130 | as many leases as leased addresses, never more than are assignable |
| `LeaseLaws.AcceptsExact` | src/assign.rs:330-362 | a node without a lease is offered exactly the usable addresses nobody holds |
| `LeaseLaws.GrantRefusedExactly` | src/assign.rs:251-283 | choosing for a node without a lease fails exactly when every usable address is held |
| `LeaseLaws.ExhaustedExactly` | src/assign.rs:161-202 | a lease is reclaimed only from a full table for a node that holds none; the request is then refused exactly when the address so freed is unusable |
| `LeaseLaws.ExhaustedWithoutV6` | src/assign.rs:161-202 | without IPv6 in play a request is refused exactly when nothing is assignable at all, and a live lease is evicted only when every assignable address is taken |
| `ServerLaws.RefusedHasNone` | src/assign.rs:161-202 | a node that is refused had no lease or an expired one, and the reply names no address |
| `LeaseLaws.AllocateEffect` | src/assign.rs:161-283 | after a grant the requester holds the replied addresses stamped now; other leases stay as they were or are among those removed; an unexpired lease keeps its addresses |
| `LeaseLaws.AllocateBinds` | src/assign.rs:161-283 | after a grant the sender's endpoint is bound to the requester, after a refusal to nobody; every other binding was there before; one is lost only with its node's lease or because it was the requester's former endpoint |
| `LeaseLaws.RemovedIsGone` | src/assign.rs:161-202 | a node whose lease a request removes holds none afterwards, unless it is the requester |
| `LeaseLaws.ReclaimsOldest` | src/assign.rs:364-375 | the lease reclaimed is unexpired and no unexpired lease was refreshed longer ago |
| `LeaseLaws.HintIsGranted` | src/assign.rs:285-312 | a node without a lease that hints at a usable address nobody holds is given that address, and nothing is reclaimed |
| `LeaseLaws.PickFromHash` | src/assign.rs:285-312 | without an acceptable hint the address is the first acceptable one from the hashed offset on, wrapping around |
| `LeaseLaws.GrantsIp6Exactly` | src/assign.rs:343-362 | a new lease has an IPv6 address if and only if it was asked for and the server has a prefix of at most 96 bits |
| `LeaseLaws.EmbedInNetwork` | src/assign.rs:550-554 | an embedded IPv6 address is the server's network address plus the IPv4 address, inside that network, for every prefix of at most 96 bits |
| `LeaseLaws.ReplyDescribes` | src/assign.rs:407-422 | an accepted reply carries an assignable address that is not the server's, the server's mask, address and IPv6 prefix, an IPv6 address inside that prefix, and the lease time in whole seconds unless it saturates |
| `LeaseRuns.RunConsistent` | src/assign.rs:161-283 | in every run of requests, sweeps and loads of arbitrary rows the four maps agree |
| `LeaseRuns.RunWithinCapacity` | src/assign.rs:115-130 | in every run without loads `leased() <= capacity()` |
| `LeaseRuns.OwnRequestRefreshes` | src/assign.rs:213-249 | a node with an unexpired lease is answered with that lease, restamped and bound to the sender |
| `LeaseRuns.OtherStepKeepsLease` | src/assign.rs:161-211 | nothing but its own request, expiry or a reclaim touches a lease |
| `LeaseRuns.StickyAddresses` | src/assign.rs:161-249 | with a forward clock, a node whose consecutive requests are at most the lease time apart gets the same reply every time until a step reclaims it |
| `LeaseRuns.ReloadRestores` | src/assign.rs:447-540 | writing the rows of a consistent table in any order and loading them restores exactly the leases not expired after truncation to seconds, none taken for a duplicate, with no endpoint bound |
| `AssignerObject.Assigner.constructor` | src/assign.rs:67-101 | a new assigner hands out the host range of the server's subnet, reserves the peer address and holds what the loaded rows give |
| `AssignerObject.Assigner.SetHostRange` | src/assign.rs:104-107 | changes the range and nothing else |
| `AssignerObject.Assigner.Capacity` | src/assign.rs:115-130 | the span less the server's address and the reserved ones in range is the number of assignable addresses |
| `AssignerObject.Assigner.DropLease` | src/assign.rs:393-405 | removes the node from all four maps and returns its lease |
| `AssignerObject.Assigner.ReapInner` | src/assign.rs:377-391 | removes and returns exactly the leases idle for longer than the lease time |
| `AssignerObject.Assigner.Reap` | src/assign.rs:205-211 | likewise, as the sweep calls it |
| `AssignerObject.Assigner.PickAddrs` | src/assign.rs:285-312 | the candidate loop chooses what the specification chooses |
| `AssignerObject.Assigner.ReclaimOldest` | src/assign.rs:364-375 | removes and returns a lease of minimal `last_seen`, or nothing from an empty table |
| `AssignerObject.Assigner.RefreshExisting` | src/assign.rs:213-249 | answers and restamps an unexpired lease and otherwise changes nothing |
| `AssignerObject.Assigner.BindNew` | src/assign.rs:251-283 | adds the lease to all four maps and binds the endpoint to the node, so that `LeaseLaws.AllocateBinds` holds |
| `AssignerObject.Assigner.Grant` | src/assign.rs:175-201 | chooses and binds, or reports that nothing is acceptable |
| `AssignerObject.Assigner.Allocate` | src/assign.rs:161-202 | is one `Allocates` step, which `LeaseLaws.AllocateEffect`, `AllocateBinds`, `ExhaustedExactly` and `ReplyDescribes` determine, and returns exactly the leases it removed |
| `ServerLaws.RunOk` | src/bin/server.rs:571-789 | in every run over arbitrary bytes, clocks and sweeps, from any consistent lease table: the lease maps agree, routes are canonical and approved as the policy says, and every leased address of a family the server has that is learned points to its lease's last endpoint |
| `ServerLaws.StepKeeps` | src/bin/server.rs:413-446 | each datagram and each sweep keeps that |
| `ServerLaws.RequestKeepsAgreeAt` | src/bin/server.rs:651-669 | an address request keeps agreement at each address its family is relearned for, on the lease maps alone |
| `ServerLaws.RequestKeepsAgree` | src/bin/server.rs:651-669 | so it keeps learned endpoints and leases in agreement |
| `ServerLaws.EndedLeaseIsForgotten` | src/bin/server.rs:773-789 | whichever step ends the lease of an address in agreement, the address is no longer learned when the step is over |
| `ServerLaws.RunForgetsEnded` | src/bin/server.rs:773-789 | so in every run, for every IPv4 address and for IPv6 on a server that has it |
| `ServerLaws.RequestForgetsDropped` | src/bin/server.rs:651-669 | an address taken from a lease by a request is learned afterwards only if it was granted again, and then through the new holder |
| `ServerLaws.SweepForgetsExpired` | src/bin/server.rs:274-291 | a sweep leaves no address of an expired lease learned that was in agreement |
| `ServerLaws.UnlearnAllSpares` | src/bin/server.rs:116-124 | unlearning dropped leases leaves every other learned address alone |
| `Relearning.AgreementLost` | src/bin/server.rs:651-669 | for every consistent table with an IPv6 lease on a server without IPv6, a run of three datagrams after which the lease follows one endpoint and the learned entry another |
| `Relearning.RunAddsNoIp6` | src/assign.rs:343-362 | on a server without IPv6 no run leases an IPv6 address that was not leased at the start |
| `Relearning.AgreesExactly` | src/bin/server.rs:571-789 | an address agrees with its lease in every run from a table if and only if it is IPv4, the server has IPv6, or nobody holds it in that table |
| `Relearning.AgreementExactly` | src/bin/server.rs:571-789 | all addresses agree in every run from a table if and only if the server has IPv6 or the table holds no IPv6 lease |
| `ServerLaws.RelayedToHolder` | src/bin/server.rs:413-446 | in every run a packet for a leased address (IPv4, or IPv6 on a server that has it) that is learned and live is relayed to the holder's last endpoint, or bounced when that is its sender |
| `ServerLaws.StrangerCannotMove` | src/bin/server.rs:753-771 | a datagram that is not an address request changes neither the leases nor where an address leased to another node points |
| `ServerLaws.SenderIsReachable` | src/bin/server.rs:413-446 | a data packet makes its source reachable through its sender exactly when the sender may claim it |
| `ServerEffects.RelayExactly` | src/bin/server.rs:413-446 | in every run, for every data packet with a readable destination: a live client, leased or not, gets it at its learned endpoint; else the owner of the longest approved network that contains the destination; it goes to the TUN device if and only if there is neither; and it is never sent back to its sender |
| `ServerEffects.OtherPayloads` | src/bin/server.rs:413-446 | a packet without a readable destination goes to the TUN device; a short payload and an unparsable control message change nothing |
| `ServerEffects.PushesAreIgnored` | src/bin/server.rs:571-727 | pushes and replies sent by a client change nothing and are not answered |
| `ServerEffects.DataIsLearned` | src/bin/server.rs:413-446 | a data packet makes its source reachable through its sender if nobody holds the address or the sender's node does, and changes nothing else |
| `ServerEffects.ControlIsLearned` | src/bin/server.rs:571-646 | keepalives, route adverts and name adverts do so for exactly the tunnel addresses they name |
| `ServerEffects.BindingStands` | src/bin/server.rs:651-669 | a step keeps the node of an endpoint unless the node loses its lease, asks from elsewhere, or another node asks from there |
| `ServerEffects.GrantedIsLearned` | src/bin/server.rs:413-669 | over runs: after a granted request a data packet from the granted address through the same endpoint is learned, however much later, while the node holds the address, asks from nowhere else and nobody else asks from there |
| `ServerTables.AdvertTakesEffect` | src/bin/server.rs:600-646 | after a route advert its sender owns exactly the canonical networks it listed; the reply is sent if and only if asked for and lists exactly the approved networks of others |
| `ServerTables.NameTakesEffect` | src/bin/server.rs:674-723 | after a name advert its sender has a row with the addresses and time of the advert, or none for an empty name; all other rows and tables stay; the reply is sent if and only if asked for |
| `ServerTables.UnlearnAllExactly` | src/bin/server.rs:773-789 | dropped leases take exactly those of their addresses that still point to the lease's endpoint or are out of date |
| `ServerTables.UnlearnAllNames` | src/bin/server.rs:773-789 | and exactly the names of their endpoints |
| `ServerTables.SweepClientsExactly` | src/bin/server.rs:274-291 | a sweep keeps, unchanged, exactly the live addresses that no overdue lease still names |
| `ServerTables.SweepTablesExactly` | src/bin/server.rs:274-291 | a sweep keeps, unchanged, exactly the fresh routes, the leases not overdue and the fresh names whose endpoint is in no overdue lease |
| `ServerTables.RequestClientsExactly` | src/bin/server.rs:651-669 | a request leaves the granted addresses at its sender and besides exactly the addresses that no lease it removes still names |
| `ServerTables.RequestNamesExactly` | src/bin/server.rs:651-669 | a request takes the names of exactly the endpoints of the leases it removes |
| `ServerTables.RunApproval` | src/bin/server.rs:600-646 | in every state of every run all routes are canonical, and approved always with auto approval, else if and only if an allowlist entry so allows them |
| `ServerLaws.GrantIsLease` | src/bin/server.rs:651-669 | the addresses learned from a reply are exactly those of the requester's lease whose family the server has |
| `ServerLaws.PacketAddresses4` | src/bin/server.rs:907-935 | source and destination of an IPv4 packet are the octets at 12 and 16 |
| `ServerLaws.PacketAddresses6` | src/bin/server.rs:907-935 | source and destination of an IPv6 packet are the octets at 8 and 24 |
| `ServerNames.RunNamesUnique` | src/bin/server.rs:674-723 | while fewer than 254 names are held, server included, names and clients stay inverse in every run |
| `ServerNames.RunNamesResolve` | src/bin/server.rs:674-723 | in every such run with at most 23 named clients a want-peers advert, and nothing else, is answered with a push that makes its receiver resolve exactly the names then held |
| `LearnStateObject.LearnState.constructor` | src/bin/server.rs:210-219 | a new state has learned nothing |
| `LearnStateObject.LearnState.MaybeLearn` | src/bin/server.rs:753-771 | learns an address unless it is leased to a node other than the sender's |
| `LearnStateObject.LearnState.Unlearn` | src/bin/server.rs:116-124 | forgets an address that still points to the given endpoint or is dead |
| `LearnStateObject.LearnState.UnlearnDropped` | src/bin/server.rs:773-789 | forgets the addresses and the name of every dropped lease |
| `LearnStateObject.LearnState.HandleRequest` | src/bin/server.rs:651-669 | is one request step of the state machine |
| `LearnStateObject.LearnState.HandleControl` | src/bin/server.rs:571-727 | is one control step for every well-formed message |
| `LearnStateObject.LearnState.HandleDatagram` | src/bin/server.rs:413-446 | is one datagram step for every byte string; `ServerEffects` and `ServerTables` determine what the step does |
| `LearnStateObject.LearnState.HandleSweep` | src/bin/server.rs:274-291 | is one sweep step |
| `LearnStateObject.LearnState.Lookup` | src/bin/server.rs:95-102 | an exact live client first, then the longest approved prefix, as `ServerEffects.RelayExactly` states by addresses |
| `Subnets.CanonicalIsCanonical` | src/mesh.rs:267-269 | masking host bits is idempotent and gives a canonical network |
| `Subnets.OneMatchPerLength` | src/mesh.rs:702-708 | at most one held network of each prefix length contains a destination |
| `Subnets.LookupExact` | src/mesh.rs:702-708 | lookup answers nothing exactly when no approved network contains the destination, and otherwise the owner of the longest one, whatever the order of the table |
| `Subnets.SupernetExactly` | src/mesh.rs:591-600 | the supernet test compares addresses: an entry of the family holds all addresses of the canonical network and does not start behind its first |
| `Subnets.ApprovedExactly` | src/mesh.rs:591-600 | a held route is approved always with auto approval, else if and only if some allowlist entry of its family holds all its addresses and, if it has host bits, does not start behind them |
| `Subnets.LookupUnderAuto` | src/mesh.rs:702-708 | with auto approval lookup answers if and only if a held network contains the destination |
| `Subnets.LookupWithinAllowlist` | src/mesh.rs:591-600 | without auto approval lookup only answers for destinations inside some allowlist entry |
| `Subnets.AdvertiseKeepsOk` | src/mesh.rs:653-698 | an advert keeps networks canonical and approvals as the policy says |
| `Subnets.AdvertiserOwnsExactly` | src/mesh.rs:653-718 | after an advert the peer owns exactly the canonical set it advertised, others keep what was not taken over, and its split-horizon set is disjoint from its own |
| `Subnets.QuietExactly` | src/mesh.rs:630-698 | under a fixed policy the outcome is quiet if and only if no owner and no approval changed |
| `Subnets.OutcomeMeans` | src/mesh.rs:653-698 | the outcome lists a network as approved, awaiting, moved or withdrawn if and only if the table before and after says so |
| `SubnetTableObject.SubnetTable.Advertise` | src/mesh.rs:653-698 | the in-place update of the vector, duplicates included, has the specified table and outcome, which `Subnets.AdvertiserOwnsExactly`, `ApprovedExactly` and `OutcomeMeans` determine |
| `SubnetTableObject.SubnetTable.Lookup` | src/mesh.rs:702-708 | the linear scan answers the longest match |
| `SubnetTableObject.SubnetTable.RoutesFor` | src/mesh.rs:712-718 | lists exactly the approved networks of other peers, each once |
| `SubnetTableObject.SubnetTable.Expire` | src/mesh.rs:723-733 | removes and lists exactly the routes idle for longer than the lease time |
| `Codec.Encoded` | src/mesh.rs:311-418 | no encoding exceeds 1400 bytes and exactly keepalives have length 1 or 5, so length dispatch is unambiguous |
| `Codec.NameRoundTrip` | src/mesh.rs:422-431 | a name comes back from the wire if and only if it is at most 32 bytes long and does not end in a multi-byte character |
| `CodecLaws.MessageRoundTrip` | src/mesh.rs:311-574 | parsing an encoding gives the normal form (at most 64 routes or 24 peers, host bits masked, `::` as absent) if and only if every name in it survives the cut |
| `CodecLaws.NameLostExactly` | src/mesh.rs:422-431 | the bytes of a name do not decode if and only if the last byte within the 32-byte limit is not ASCII |
| `CodecLaws.AdvertLostExactly` | src/mesh.rs:422-431 | a name advert is not parsed by its receiver if and only if its name is so lost |
| `CodecLaws.PushLostExactly` | src/mesh.rs:422-431 | a peer push is not parsed at all if and only if one of its names is so lost |
| `CodecLaws.LostNameExample` | src/mesh.rs:422-431 | a name of one accented letter is lost |
| `CodecLaws.ParsedIsNormal` | src/mesh.rs:437-574 | whatever parses is well formed and already in normal form, so re-encoding loses nothing more |
| `Wire.ParsedExactly` | src/mesh.rs:437-574 | for all bytes and messages: the parser answers the message if and only if the bytes spell it in a grammar that gives every type byte, field position, limit and length, so no trailing byte and no other form is accepted |
| `Wire.EncodedSpells` | src/mesh.rs:311-418 | what a message is sent as spells its normal form in that grammar if and only if every name in it survives |
| `Wire.RoutesExactly` | src/mesh.rs:272-309 | a list of routes is read if and only if each stands behind the one before, with family byte, prefix length and address |
| `Wire.PeersExactly` | src/mesh.rs:516-547 | likewise for peers, whose IPv6 address counts only if flagged |
| `CodecLaws.RoutesBack` | src/mesh.rs:272-309 | parsing pushed routes gives their canonical forms in order |
| `CodecLaws.PeersBack` | src/mesh.rs:516-547 | parsing pushed peers gives their normal forms in order if and only if all names survive |
| `CodecLoops.CutName` | src/mesh.rs:422-431 | the walk back over continuation bytes is the specified cut |
| `CodecLoops.Encode` | src/mesh.rs:311-418 | the buffer-pushing encoders compute `Encoded` |
| `CodecLoops.ReadRoutes` | src/mesh.rs:289-309 | the loop over the shrinking slice computes the specified routes or fails |
| `CodecLoops.ReadPeers` | src/mesh.rs:516-547 | likewise for peers |
| `CodecLoops.ReadAdvert` | src/mesh.rs:449-468 | the fields of a route advert, read from the bytes after the type |
| `CodecLoops.ReadRequest` | src/mesh.rs:477-491 | the fields of an address request, by exact length |
| `CodecLoops.ReadName` | src/mesh.rs:492-515 | the fields of a name advert, with its length and UTF-8 tests |
| `CodecLoops.ReadReply` | src/mesh.rs:548-571 | the fields of an address reply, by exact length and status |
| `CodecLoops.ParseControl` | src/mesh.rs:437-574 | dispatch by length and type byte computes `Parsed` for every byte string |
| `Text.FromUtf8Inverts` | src/mesh.rs:422-431 | decoding UTF-8 inverts encoding it |
| `Text.Utf8Inverts` | src/mesh.rs:516-547 | and encoding inverts decoding, for every byte string that decodes |
| `Labels.SanitizeHostname` | src/magic.rs:110-144 | the character loop gives the specified label, which is clean: 1 to 32 lower-case letters, digits and single inner hyphens |
| `Labels.SanitizedIdempotent` | src/magic.rs:110-144 | sanitizing a clean label changes nothing, so sanitizing twice is sanitizing once |
| `Labels.SanitizedIsWords` | src/magic.rs:110-144 | for every text: the words of its first piece between dots, lower-cased and with other characters dropped, joined by single hyphens, cut to 32 characters and not ending in a hyphen; "node" if nothing is left |
| `Labels.FirstPieceExactly` | src/magic.rs:110-144 | the first piece lies behind the leading dots and ends at the next dot or the end |
| `Labels.FitKeepsMost` | src/magic.rs:420-431 | a suffixed label starts with the whole label if both fit in 32 characters, else with all of it that fits but trailing hyphens |
| `Labels.TagReads` | src/magic.rs:194-199 | the tag is the first two bytes of the node id in hexadecimal, or without one the last octet of the address |
| `Labels.FitValid` | src/magic.rs:420-431 | a suffixed valid label is a valid label that ends in the suffix |
| `Labels.NumberedInjective` | src/magic.rs:384-402 | different numbers give different candidates |
| `Names.NumberedCount` | src/magic.rs:384-402 | the numbered candidates are pairwise distinct |
| `Names.UniqueNameExact` | src/magic.rs:384-402 | the name chosen is one of the candidates, and is free if and only if some candidate is |
| `Names.UniqueNameOrder` | src/magic.rs:384-402 | the label wanted if it is free, else the tagged one if that is, else the least free number |
| `Names.FewNamesLeaveOneFree` | src/magic.rs:384-402 | while fewer than 254 names are held, server included, some candidate is free |
| `Names.AdvertiseKeepsOkExactly` | src/magic.rs:270-314 | an advert keeps names and rows inverse and the server's name its own if and only if it needs no new label or a candidate is free; the label granted is always valid |
| `Names.AdvertiseKeepsOk` | src/magic.rs:270-314 | so always while fewer than 253 clients hold a name |
| `Names.AdvertiseStores` | src/magic.rs:270-314 | an advert stores the sanitized name and its addresses and time in the peer's row, or removes the row for an empty name; all other rows stay; a repeated name keeps its label |
| `Names.FreeNameIsGranted` | src/magic.rs:270-314 | a new name that neither the server nor another client holds is granted as it is |
| `Names.AdvertiseReports` | src/magic.rs:270-314 | the outcome names the label the row has afterwards, or had, and whether it is other than asked for |
| `Names.WithdrawKeepsOk` | src/magic.rs:317-327 | a withdrawal removes the peer's row and keeps the tables inverse |
| `Names.WithoutKeepsOk` | src/magic.rs:330-343 | expiry keeps the tables inverse |
| `Names.CrowdCollides` | src/magic.rs:384-402 | a reachable table, with the server's row, in which all candidates are gone, so that the next endpoint is given a label that is taken |
| `NameTableObject.NameTable.constructor` | src/magic.rs:259-266 | a table with the sanitized server row or with none |
| `NameTableObject.NameTable.UniqueName` | src/magic.rs:384-402 | the search loop chooses the specified name |
| `NameTableObject.NameTable.Withdraw` | src/magic.rs:317-327 | new tables and outcome are those of the specification |
| `NameTableObject.NameTable.Advertise` | src/magic.rs:270-314 | new tables and outcome are those of the specification |
| `NameTableObject.NameTable.Expire` | src/magic.rs:330-343 | removes exactly the idle rows and returns their labels |
| `NameTableObject.NameTable.TakeSnapshot` | src/magic.rs:347-363 | the server row first, then rows in some order, at most 24 in all |
| `MagicDns.PeerTable.Replace` | src/magic.rs:52-69 | the rebuilt map is that of the entries just pushed |
| `MagicDns.PeerTable.Lookup` | src/magic.rs:72-78 | answers a name if and only if an entry of the latest push has it, bare or in the zone, and then with the addresses of the last such entry |
| `MagicDns.ReplacedExactly` | src/magic.rs:52-78 | for any entries, duplicates and empty names included, the map answers exactly their lower-cased keys, the last entry winning |
| `MagicDns.ReplacedAnswers` | src/magic.rs:52-69 | a table replaced with pairwise different labels answers for exactly those labels, bare and in the zone, with their addresses |
| `MagicDns.PushResolves` | src/magic.rs:347-363 | whatever the size of the table, encoding, parsing and replacing make a client resolve exactly the rows its snapshot holds |
| `MagicDns.NamesResolve` | src/magic.rs:347-363 | end to end: with at most 24 names these are exactly the server's names, bare and in the zone, with the rows' addresses |
| `Dns.WalkIsShort` | src/policy/dns.rs:278-327 | a walk that reaches a root label visits no position twice, so it does so within as many hops as the message has bytes |
| `Dns.ReaderExact` | src/policy/dns.rs:278-327 | for every byte string the budgeted reader succeeds if and only if the unbounded walk over labels and pointers reaches a root label, answers that walk's labels lower-cased, and ends where `skip_name` does (section 4.1.4 of RFC 1035) |
| `Dns.SkipAgrees` | src/policy/dns.rs:330-355 | whenever the reader succeeds the skipper ends at the same offset |
| `Dns.SkipLocal` | src/policy/dns.rs:330-355 | the skipper looks at no byte outside the name |
| `Dns.ReadName` | src/policy/dns.rs:278-327 | the loop over position, budget and jump flag terminates and computes the specified name and offset |
| `Dns.Skip` | src/policy/dns.rs:330-355 | the loop terminates and computes the specified offset |
| `DnsMessages.QueryRoundTrip` | src/policy/dns.rs:24-76 | the question read from a built query is A/IN for the lower-cased name without its empty or over-long labels, for every name |
| `DnsMessages.QueryAsksName` | src/policy/dns.rs:24-76 | for every name with labels of 1 to 63 bytes it is the lower-cased name itself |
| `DnsGrammar.QueryHeader` | src/policy/dns.rs:24-41 | a query has the id, recursion desired and no other flag, one question and no other section |
| `DnsMessages.ResponseExact` | src/policy/dns.rs:214-259 | a response is built if and only if the query has a readable question |
| `DnsMessages.ResponseAnswers` | src/policy/dns.rs:114-259 | reading a response back gives exactly the asked family's addresses in order as far as the 16-bit count reaches, none of the other, none for another class, and the TTL passed in |
| `DnsMessages.RepliesToQuery` | src/policy/dns.rs:214-273 | both replies keep the id, set QR, RD and RA, carry one question and no referral sections, and code 0 or 3 |
| `DnsGrammar.ResponseIsWire` | src/policy/dns.rs:214-259 | a response is the question as sent and then, in the format of RFC 1035, one Internet record of type A or AAAA with the TTL for each address of the family asked for, in order, and none for another type or class |
| `DnsGrammar.AnswerBelongs` | src/policy/dns.rs:214-259 | each such record belongs to the name of the question |
| `DnsEcho.RepliesEchoExactly` | src/policy/dns.rs:214-273 | for every query with a readable question, both replies ask the same question if and only if the name's walk reads copied bytes only (the id and the question) or reads the same name on from where it leaves them |
| `DnsEcho.NxDomainEchoByQuery` | src/policy/dns.rs:262-273 | for NXDOMAIN and a walk that leaves at or after the flags, this is decided by the query: it must leave to a header count and read there what the reply's counts spell |
| `DnsEcho.PlainIsEchoed` | src/policy/dns.rs:214-273 | a question that is spelled out is always echoed |
| `DnsEcho.EchoLost` | src/policy/dns.rs:262-273 | a concrete query whose NXDOMAIN reply has no readable question |
| `DnsEcho.PointerEchoed` | src/policy/dns.rs:262-273 | a concrete query whose name is a pointer and is echoed |
| `Dns.NameIsLabels` | src/policy/dns.rs:278-327 | the name read at any position is what hopping over labels and pointers gives, without a budget |
| `DnsGrammar.NameIsRead` | src/policy/dns.rs:278-327 | a name of any labels and a root or a 14-bit pointer is read as its labels and those it points to, lower-cased and dotted, up to the byte behind it (section 4.1.4 of RFC 1035) |
| `DnsGrammar.NameSkipped` | src/policy/dns.rs:330-355 | skipping such a name ends behind it |
| `DnsGrammar.ReservedRefused` | src/policy/dns.rs:278-355 | lengths from 64 to 191 are refused by reader and skipper |
| `DnsGrammar.MessageIsRead` | src/policy/dns.rs:80-208 | from every message in the format of section 4.1 of RFC 1035, with arbitrary names, types, classes and data, exactly the Internet A or AAAA addresses of the right size are taken, in order, and the least TTL of all answers |
| `DnsGrammar.QuestionIsRead` | src/policy/dns.rs:61-76 | the question of such a message is its first one if its name ends, and there is none without questions |
| `DnsMessages.NxDomainIsEmpty` | src/policy/dns.rs:262-273 | an NXDOMAIN reply holds no address and no TTL |
| `DnsMessages.MinTtlIsLeast` | src/policy/dns.rs:80-108 | for every message the answer is the least TTL of the records that can be walked, and nothing when a name is malformed |
| `DnsMessages.BuildQuery` | src/policy/dns.rs:24-41 | the label loop builds the specified query |
| `DnsMessages.BuildResponse` | src/policy/dns.rs:214-259 | the record loop builds the specified response |
| `DnsMessages.PassQuestions` | src/policy/dns.rs:122-133 | the question loop skips the specified questions or fails |
| `DnsMessages.ReadRecord` | src/policy/dns.rs:136-161 | one answer record: its address if it is an Internet record of the family, and where it ends |
| `DnsMessages.ReadAddresses` | src/policy/dns.rs:114-208 | the record loop collects the specified addresses up to the first malformed record |
| `DnsMessages.ReadMinTtl` | src/policy/dns.rs:80-108 | the record loop computes the specified minimum |
| `Obfs.LetterIsListed` | src/obfs.rs:142-142 | the letters are those of the alphabet, in its order |
| `Obfs.ReverseTable` | src/obfs.rs:146-154 | the reverse table holds each letter's value and 0xFF everywhere else |
| `Obfs.EncodedLength` | src/obfs.rs:157-177 | four characters for every three bytes begun |
| `Obfs.Base64RoundTrip` | src/obfs.rs:157-201 | decoding with the 32-bit shift register inverts encoding on every byte string, whatever the register held (section 4 of RFC 4648) |
| `Obfs.DecodeFailsExactly` | src/obfs.rs:181-201 | decoding fails if and only if a byte before the first padding is outside the alphabet |
| `Obfs.Base64Encode` | src/obfs.rs:157-177 | the chunk loop computes the encoding |
| `Obfs.Base64Decode` | src/obfs.rs:181-201 | the register loop computes the decoding |
| `Obfs.ShapedRoundTrip` | src/obfs.rs:64-92 | an end recovers a wrapped datagram if and only if it shares the connection-id length (section 17.3.1 of RFC 9000) |
| `Obfs.ShapedFields` | src/obfs.rs:64-77 | form bits 01, four random bits, packet-number length 2, connection id, the low 16 bits of the packet number, datagram |
| `Obfs.UnshapedExactly` | src/obfs.rs:80-92 | a packet is opened to a datagram if and only if it is a short header with a connection id of that length and a packet number as long as its low bits say, followed by the datagram |
| `Obfs.QuicObfs.Wrap` | src/obfs.rs:64-77 | the packet is form byte, connection id, low packet-number bytes and datagram; the packet number advances modulo 2^32 |
| `ChnRoute.CidrExact` | src/policy/chnroute.rs:87-103 | a CIDR line gives a range if and only if its length is at most 32, and the range holds exactly the addresses that agree with it under the mask |
| `ChnRoute.Merge` | src/policy/chnroute.rs:106-122 | for all ranges the merged list is in order, with a gap after each range that holds anything, and covers exactly the same addresses, without overflow at the last address; without reversed ranges it is apart throughout |
| `ChnRoute.MergedFormUnique` | src/policy/chnroute.rs:106-122 | two such lists that cover the same addresses are equal, so the merged list depends only on what is covered |
| `ChnRoute.Contains` | src/policy/chnroute.rs:72-83 | binary search answers whether some range holds the address or a reversed one starts there |
| `ChnRoute.FoundIsCoveredExactly` | src/policy/chnroute.rs:72-122 | lookup after merging is coverage for every address if and only if each reversed range starts at or just after a covered address |
| `ChnRoute.FoundWhenUpright` | src/policy/chnroute.rs:72-122 | so always for ranges with start <= end; a lone reversed range is found at its start |
| `Intercept.ClassifyExactly` | src/policy/intercept.rs:73-120 | exactly the unfragmented IPv4/UDP packets to port 53 whose datagram lies within the packet are taken, with their addresses, ports and whole payload |
| `Intercept.HeaderChecksum` | src/policy/intercept.rs:229-243 | the word loop, odd byte included, and the carry fold compute the complement of the sum without 32-bit overflow |
| `Intercept.UdpChecksum` | src/policy/intercept.rs:246-267 | likewise over pseudo-header and datagram |
| `Intercept.BuildReply` | src/policy/intercept.rs:128-150 | the packet filled in place is the specified one |
| `Intercept.ReplyFields` | src/policy/intercept.rs:128-150 | lengths, protocol, swapped addresses and ports and the payload stand where IPv4 and UDP put them, and the UDP checksum is never 0 |
| `Intercept.ReplyHeaderValid` | src/policy/intercept.rs:128-150 | the header sum of every reply passes the receiver's test |
| `Intercept.ReplyUdpValid` | src/policy/intercept.rs:128-150 | so does its UDP sum, in the same predicate the NAT rewrite keeps |
| `Intercept.ReplyReadsBack` | src/policy/intercept.rs:73-150 | a reply is classified as a query if and only if it goes to port 53 itself, and then is the query with endpoints swapped and the response as payload |
| `Intercept.ReplyReturnsToSender` | src/policy/intercept.rs:73-150 | answering a classified packet goes back to its source address and port from its destination address and port |
| `Intercept.ReplySurvivesRewrite` | src/policy/intercept.rs:128-150 | both checksums of a reply stay valid when the NAT rewrites either address |

## Left out

- Tokio tasks, channels, sockets, the TUN device, timers and signals: only the synchronous steps taken under the lock are modelled.
- Encryption, key derivation and the hashes of `src/crypto.rs`; the assigner's SHA-256 offset is an arbitrary function of the node id.
- The text of the lease file (JSON), when it is written and its atomic replacement; the rows written and the rows loaded are modelled.
- Times before 1970 in the lease file, which the original stores as 0.
- `ipnetwork` is not part of this model; containment and supernet tests are modelled by first, stored and last address.
- NAT-mode control messages beyond the refresh of the sender's lease (`Keepalive` events), and the fixed reply they get.
- The server reads the clock once per learned address; the model reads it once per step for all of them.
- Forwarding from the TUN device to clients, which is the same lookup without a change of state.
- Client-side route installation, `diff_routes`, kernel routes and resolver settings: calls into the system around an easy set difference.
- The split-DNS resolver with its upstream queries, its cache, GeoIP and gfwlist loading: network and file clients around easy decisions.
- The lines of `chnroute.txt`: only address and length of a CIDR line are modelled, not the parsing of its text.
- Choosing which resolver addresses to attract to the tunnel device.
- Dns.ReaderExact: names are the lower-cased bytes of their labels, because the replacement characters the library puts into labels that are not UTF-8 belong to it.
- Dns.ReadName: likewise does not model those replacement characters.
- ICMP payloads, which the original does not rewrite either.
- Configuration merging, command lines, URIs and QR codes, and the desktop application.
- Intercept.BuildReply: requires a response of at most 65507 bytes, the most that fits an IPv4 packet; beyond it the 16-bit lengths wrap.
- MagicDns.NamesResolve: requires at most 24 names, server included, because a snapshot holds no more; `MagicDns.PushResolves` states what holds for any number.
- AssignerObject.Assigner.SetHostRange: requires a range of fewer than 2^32 addresses, whose size the original computes in 32 bits.
