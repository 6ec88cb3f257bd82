# dpservice, verified models

dpservice is a virtual router built on DPDK. This project models five of its parts in Dafny and
proves what they keep over every input, every request sequence and every run:

- **Load balancing** (`PreferenceRow`, `MaglevTable`, `LoadBalancer`): Maglev preference rows, the
  lookup table built from them, and the ordered backend array behind it.
- **NAT, connection tracking and high availability** (`FlowKeys`, `NatPorts`, `NatTables`,
  `Conntrack`, `Answers`, `Sweeps`, `FlowTable`, `NatFlows`, `TcpState`, `SyncProtocol`,
  `Replication`, `Failover`, `Takeover`, `SecondStandby`): flow keys and the keys derived from them, the port search, the two NAT tables and
  their counters, reference-counted flows with a two-buffer cache, which flow an answer finds and which
  flows a removal takes, the messages an active instance
  sends its backup step by step, and the flows the backup makes of them when it takes over.
- **IPsec** (`IpsecSad`, `IpsecDatabase`, `IpsecBurst`, `TunnelPolicy`): the Security Association
  database (section 4.4.2 of RFC 4301) with its owning slots and crypto sessions, the two burst
  crypto nodes, and the policy that classification, decryption and decapsulation enforce together.
- **Virtual services** (`VirtSvc`, `VirtSvcTable`, `VirtSvcSync`): the round-robin port table, its hash
  table, and its replication.
- **Graph dispatch** (`Dispatch`): the speculative enqueue every node uses.

`Words` and `Remainders` hold machine words and two facts about remainders.

State that the C code updates in place is a class whose methods are proved against functions on
values (`LbValue`, `NatStore`, `SyncNode`, `Table`, `Database`, `TcpFlow`); the invariants and the
theorems over runs are lemmas about those functions. Every `rte_hash` is a map, every hash function
an arbitrary value, and what a foreign call may do (allocation, session creation, framing, the order
and success of crypto operations) is a parameter that the theorems quantify over. Flow values and
Security Associations have identities that are never reused, so "freed once" and "never dangling"
can be said about values.

## What the proofs found

Places where the code does less than its comments, its documentation or a reader may expect. Each has
a lemma with the exact condition, most of them one with a concrete input too.

- A takeover restores the active's NAT flows, under the same keys and owning the same ports, if and only
  if every one of them still has both its keys and none has an ICMPv6 reply key
  (`Takeover.TakeoverIff`, over runs `Takeover.RunTakeoverIff`). Removing the flows towards a
  neighbour's NAT range looks at keys one by one and can leave a flow with one key; the backup then
  brings the other back (`Takeover.HalfRemovedFlow`, a flow older than the neighbour's entry).
- The NAT tables alone do not keep restored keys apart: a client that talks to another client's NAT port
  has an original key equal to the other's reply key. On one NAT address this is the only way for TCP and
  UDP keys to meet (`Failover.PortKeysDistinctIff`, `Failover.HairpinEntries`). The active's flow table
  rules it out (`Takeover.RestorableDistinct`).
- A standby that starts from a full dump is in sync exactly if each NAT flow is filed under the original
  key stored in it (`Takeover.FreshStandbyIff`). A restored NAT64 flow is not, and `src/dp_flow.c:531`
  leaves it out: after a takeover the next standby is in sync exactly if no client was behind NAT64
  (`SecondStandby.SecondStandbyIff`, with a concrete flow `SecondStandby.Nat64LostLater`).
- Flow keys restored at failover are the active's except for ICMPv6 carried in IPv4
  (`FlowKeys.FailoverKeysIff`).
- If source NAT fails after its port has been allocated, the NAT tables and the flows no longer agree
  (`Conntrack.SnatKeepsIff`): a NAT64 packet that cannot be translated leaks the port, such as ICMPv6 of
  type 1 as the first packet of a flow (`Conntrack.UntranslatableLeaks`); a reply key that cannot be
  inserted leaves a flow that claims a released one.
- Replacing an egress association with 64 live ones always fails, because the session pool also holds
  64 and the new session is taken before the old one is returned (`IpsecSad.FullCannotRekey`, after 64
  creations `IpsecSad.FullDatabaseRefuses`). `src/dp_ipsec.c:616-617` and
  `docs/adr/0006-egress-associations-are-rekeyed-by-replacement.md:68-70` say the opposite.
  All-or-nothing and gaplessness do hold.
- The port search starts at a 32-bit hash and wraps with it; it visits every port of the range exactly
  if the hash plus the range size does not exceed 2^32 or the size divides 2^32
  (`NatPorts.SearchCoversIff`). Exactly then does a failure mean that no port is left
  (`NatPorts.FailureMeansFullIff`); any other search can fail next to a free port
  (`NatPorts.IncompleteSearchFails`), for instance with the largest hash and three ports
  (`NatPorts.LargestHashIncomplete`).
- Using a client's existing portmap entry is refused if its port is taken towards that destination by
  another client, not only for a repeated flow as `src/dp_nat.c:705-706` says
  (`NatTables.AllocateRefusedIff`, `NatTables.BorrowedPortBlocks`).
- A client's flow counter is 16 bits wide; the tables stay in step exactly until it holds 0xffff flows
  (`NatTables.AllocateTracksIff`).
- A client keeps one NAT address exactly as long as each of its allocations asks for the address of its
  portmap entry (`NatTables.AddressKeptIff`, over runs `Replication.RunKeepsAddress`).
- The answer to an IPv6 packet that is not for NAT64 finds its flow exactly if the key buffer held no
  NAT or load-balancer mark from an earlier packet, because the mark is not written for such packets
  (`FlowKeys.Ipv6AnswerFoundIff`).
- The answer to a packet sent with a virtual IP finds its flow exactly if the interface has no
  load-balanced prefix, and the interface's answer to a packet for its virtual IP exactly if it has
  neither that nor a NAT address (`FlowKeys.VipAnswerFoundIff`, `FlowKeys.DnatAnswerFoundIff`): the marks
  of the two directions differ otherwise.
- An ICMP error about a translated packet finds its flow exactly if neither quoted port is zero
  (`FlowKeys.NatErrorFoundIff`).
- ICMP reply keys lack the identifier of the original echo, so two live ICMP allocations can share one
  (`FlowKeys.RepliesCollideIff`, `FlowKeys.IcmpRepliesCollide`).
- A backup that listens before its dump has arrived can be told to delete an allocation it has not
  heard of, with no packet lost; `docs/ha/implementation_specifics.md:38` excludes this. A full dump then
  makes up for it exactly if the backup does not know the client, or knows one flow of it and that one is
  listed before the client's others (`SyncProtocol.DumpMendsIff`). Whatever the order it does exactly if
  the client is not known or has no other flow (`SyncProtocol.EveryDumpMendsIff`). Otherwise the count
  stays a flow short (`SyncProtocol.DumpAfterStrayDelete`).
- The zero address can never become a backend: while there is room the padding already matches it
  (`LoadBalancer.LbValue.AddBackIp`).
- A virtual service turns the port of a reply into a slot by a 16-bit subtraction and does not look
  whether there is such a slot: there is one exactly for ports from 1024 on, and port 80 stands for
  slot 64592 of 64512 (`VirtSvc.SlotOfIff`, `VirtSvc.ReplyRight`). The slot number in a message from the
  active is not looked at either (`VirtSvc.StepRight`).
- A cycle counter of zero marks unused slots, so the connection tables stay inverse exactly if no packet
  of a known connection is stamped with it (`VirtSvc.RequestRight`, `VirtSvc.ReplyRight`,
  `VirtSvc.SyncRight`).
- A virtual-service slot given up by a deleted interface keeps its TCP state, so after an established
  connection it is not offered again before the cycle counter itself passes a day
  (`VirtSvc.GivenUpOfferedIff`). A full table can thus be empty and refuse every client
  (`VirtSvc.GivenUpNotOffered`).
- Deleting an interface on both instances of a virtual service keeps them in step exactly if no connected
  client of it has its message still under way; the backup ends with those clients in addition
  (`VirtSvcSync.DropKeepsIff`, concretely `VirtSvcSync.LateMessageRevives`).
- A lookup key with both prefixes local does not determine the direction of the association it finds
  (`IpsecSad.LocalKeyFitsBoth`); the zero key of a frame too short for ESP finds nothing unless the
  host's own underlay prefix is zero (`TunnelPolicy.ShortFrameFindsNothing`,
  `TunnelPolicy.ShortFrameZeroPrefix`).

## Model

| member | source | states |
|---|---|---|
| `PreferenceRow.NoOverflow` | src/dp_maglev.c:86-92 | computing a preference in 32 bits never wraps: it is (offset + j * skip) mod 503 |
| `PreferenceRow.RowIsPermutation` | src/dp_maglev.c:74-94 | for every offset and skip the preference row visits each of the 503 slots exactly once |
| `PreferenceRow.SizeIsPrime` | include/dp_lb.h:19-20 | 503 has no proper divisor, which is why rows are permutations |
| `MaglevTable.BuiltIsFair` | src/dp_maglev.c:96-139 | for every non-empty backend list each slot names a backend and backend i holds 503/n slots, plus one if i < 503 mod n |
| `MaglevTable.FirstChoices` | src/dp_maglev.c:74-114 | the first backend holds the slot its murmur hash names, the second that of its own, or the one its other hash leads to from there if both are the same |
| `MaglevTable.Permutation` | src/dp_maglev.c:74-94 | the flat array holds exactly the backends' rows |
| `MaglevTable.PopulateIteration` | src/dp_maglev.c:96-114 | one round gives each backend in turn its most preferred free slot and reports when the table is full |
| `MaglevTable.Populate` | src/dp_maglev.c:116-139 | the build terminates with the table of the reference definition, and the fallback fill changes nothing |
| `MaglevTable.FillRest` | src/dp_maglev.c:133-136 | the fallback touches free slots only |
| `LoadBalancer.IsGreater` | src/dp_maglev.c:158-167 | byte-wise comparison is the order of the addresses read as numbers |
| `LoadBalancer.InsertAt` | src/dp_maglev.c:169-201 | shifting up and writing yields the array with the address at its place |
| `LoadBalancer.RemoveAt` | src/dp_maglev.c:169-226 | shifting down and zeroing yields the array without the address |
| `LoadBalancer.AscendingIsUnique` | src/dp_maglev.c:181-201 | a set of addresses has one ascending list |
| `LoadBalancer.LbValue.AddMaglevBackend` | src/dp_maglev.c:181-201 | adding keeps backends ascending, duplicate-free, zero-padded, with the table built for them |
| `LoadBalancer.LbValue.AddBackIp` | src/dp_lb.c:305-323 | the exact answer for every address and fill level, the new backend set, and no change on refusal |
| `LoadBalancer.LbValue.DeleteBackIp` | src/dp_maglev.c:203-226 | the named backend goes, nothing changes if it is not there |
| `LoadBalancer.LbValue.IsBackIpInserted` | src/dp_lb.c:212-218 | membership, counting the zero padding while there is any |
| `LoadBalancer.LbValue.PortMatch` | src/dp_lb.c:220-228 | whether the service is among the ports up to the first zero one |
| `LoadBalancer.LbValue.GetBackendIp` | src/dp_lb.c:230-250 | a backend is selected exactly if there are backends and the port is served, and it is a live one, the one `FlowsSharedEvenly` is about |
| `LoadBalancer.FlowsSharedEvenly` | src/dp_lb.c:230-250 | of any 503 consecutive flow hashes exactly 503/n select backend i, plus one if i < 503 mod n, and hashes 503 apart select the same |
| `LoadBalancer.Replay` | src/dp_lb.c:305-337 | after any history of adds and deletes the backends are those that survive it |
| `LoadBalancer.HistoryIndependent` | src/dp_maglev.c:141-226 | two histories that leave the same set leave the same array and the same lookup table |
| `Dispatch.PlainDeliversOwed` | include/nodes/common_node.h:20-80 | enqueueing one by one gives each next node exactly its packets, in order |
| `Dispatch.Speculative` | include/nodes/common_node.h:20-80 | the speculating loop, whatever edge it guesses, delivers what one-by-one enqueueing delivers |
| `Dispatch.ForEach` | include/nodes/common_node.h:20-80 | the same for the whole function, with or without speculation |
| `TcpState.EstablishedIff` | src/dp_cntrack.c:45-81 | after any packet trace a flow is established exactly if the trace holds a complete handshake (section 3.5 of RFC 9293), begun while the packets before left the flow idle, that nothing has ended since |
| `TcpState.IdleIff` | src/dp_cntrack.c:45-81 | a flow is idle exactly if each SYN that came while nothing was open has been closed since, said of the packets alone |
| `TcpState.TcpFlow.Handle` | src/dp_cntrack.c:130-141 | after each packet the one-day timeout is set exactly in that state |
| `FlowKeys.EmbedRoundTrip` | include/dp_ipaddr.h:135-152 | an IPv4 address survives being embedded in a NAT64 address and extracted again |
| `FlowKeys.EmbedExample` | include/dp_ipaddr.h:135-152 | the example of section 2.4 of RFC 6052 |
| `FlowKeys.InvertTwiceIff` | src/dp_flow.c:182-213 | inverting a key twice gives it back, except for the cases named |
| `FlowKeys.ReleaseFindsAllocation` | src/dp_nat.c:867-898 | the keys rebuilt from a NATted flow are those its allocation filed, for IPv4 and NAT64, ports and echoes |
| `FlowKeys.NatAnswerFound` | src/dp_flow.c:103-180 | the key of the peer's answer to a translated packet, ports or echo, IPv4 or NAT64, is the reply key the flow was given |
| `FlowKeys.NatErrorFoundIff` | src/dp_flow.c:56-93 | the same for an ICMP error that quotes the packet, exactly unless a quoted port is zero |
| `FlowKeys.PlainAnswerFoundIff` | src/dp_flow.c:103-180 | without NAT the answer's key is the inverted one, exactly if it comes through a tunnel of the same kind |
| `FlowKeys.VipAnswerFoundIff` | src/nodes/snat_node.c:63-76 | the same for a packet sent with a virtual IP |
| `FlowKeys.DnatAnswerFoundIff` | src/nodes/dnat_node.c:73-88 | the same for a packet whose destination was translated |
| `FlowKeys.Ipv6AnswerFoundIff` | src/dp_flow.c:114-117 | for IPv6 other than NAT64 exactly if the mark left in the key buffer is that of the tunnel |
| `FlowKeys.FailoverKeysIff` | src/dp_cntrack.c:210-310 | the keys restored from a replicated entry are those the active filed, for every header that a NAT interface can send; the reply key exactly unless it is ICMPv6 in IPv4 |
| `FlowKeys.StoredOrgIff` | src/dp_cntrack.c:217-292 | the key stored in a restored flow is among its filed keys exactly for IPv4 clients; its release finds the allocation in both cases |
| `FlowKeys.RepliesCollideIff` | src/nodes/snat_node.c:63-76 | when two allocations have the same reply key |
| `FlowKeys.IcmpRepliesCollide` | src/nodes/snat_node.c:63-76 | a concrete pair that does |
| `NatPorts.InPortsIsInterval` | src/dp_nat.c:607-651 | the probed ports are those of [min, max), for ranges that do not wrap |
| `NatPorts.SearchCoversIff` | src/dp_nat.c:607-651 | the probe sequence reaches every port of the range exactly under the condition named |
| `NatPorts.NoPortTwice` | src/dp_nat.c:607-651 | and then no port twice |
| `NatPorts.FailsIff` | src/dp_nat.c:607-651 | any search fails exactly if every port it probes is taken for the destination |
| `NatPorts.FoundFirst` | src/dp_nat.c:607-651 | a search takes the first free port of its probe sequence |
| `NatPorts.SearchFailsIff` | src/dp_nat.c:607-651 | such a search fails exactly if every port of the range is taken for the destination |
| `NatPorts.IncompleteSearchFails` | src/dp_nat.c:607-651 | for any other range and hash there are a free port of the range and a set of taken ones with which the search fails |
| `NatPorts.FailureMeansFullIff` | src/dp_nat.c:607-651 | a failed search means that no port is left, whatever is taken, exactly if the probes reach every port |
| `NatPorts.LargestHashIncomplete` | src/dp_nat.c:607-651 | a concrete hash and range that are not so |
| `NatPorts.FindNewPort` | src/dp_nat.c:607-651 | the loop returns the first free port of the probe sequence |
| `NatTables.AllocateTracksIff` | src/dp_nat.c:653-775 | an allocation keeps counters, ports and wire keys in step with the live allocations exactly below 0xffff flows of a client |
| `NatTables.AllocateRefusedIff` | src/dp_nat.c:687-775 | for every range and hash, exactly when an allocation is refused, and why; for a search that covers its range, when no port of it is left |
| `NatTables.BorrowedPortBlocks` | src/dp_nat.c:687-723 | a concrete refusal of a client with no flow to that destination |
| `NatTables.ReleaseTracks` | src/dp_nat.c:818-865 | releasing a live allocation keeps them in step; the portmap entry goes with the last one |
| `NatTables.StrayReleaseTracksIff` | src/dp_nat.c:818-865 | releasing anything else is harmless exactly if neither table knows it |
| `NatTables.ReleaseUndoesAllocate` | src/dp_nat.c:725-865 | releasing undoes allocating, in both tables |
| `NatTables.AddressKeptIff` | src/dp_nat.c:725-775 | an allocation leaves every client on one NAT address exactly if it asks for the one the client has |
| `NatTables.ReleaseKeepsAddress` | src/dp_nat.c:818-865 | a release always does |
| `NatTables.LedgerDetermines` | src/dp_nat.c:653-865 | the live allocations determine both tables |
| `NatTables.NatStore.AllocatePort` | src/dp_nat.c:725-775 | the tables in place follow the specification, refusals included |
| `NatTables.NatStore.AllocateFromSync` | src/dp_nat.c:777-816 | the same for an allocation from the peer |
| `NatTables.NatStore.DeleteEntries` | src/dp_nat.c:818-865 | the same for a release |
| `SyncProtocol.StepKeepsInStep` | src/dp_nat.c:777-816 | each allocation, release, dump or delivery leaves the backup equal to the active once all messages have arrived |
| `SyncProtocol.DumpIsIgnored` | src/dp_flow.c:516-536 | a full dump changes nothing in a backup that is up to date |
| `SyncProtocol.BackupFollowsActive` | src/nodes/sync_node.c:28-104 | in every run with in-order lossless delivery the backup has the active's tables whenever nothing is under way |
| `SyncProtocol.DumpRebuildsIff` | src/dp_flow.c:516-536 | what a dump in any order makes of a backup that knows a correct part, metadata included; it equals the active exactly if the two together name every allocation |
| `SyncProtocol.DumpMendsIff` | src/nodes/sync_node.c:44-78 | after the deletion of an allocation the backup never heard of, a full dump makes it an equal of the active exactly if the client is unknown to it, or has one known flow and that is the first of the client's in the dump |
| `SyncProtocol.EveryDumpMendsIff` | src/nodes/sync_node.c:44-78 | every full dump does, in whatever order, exactly if the client is unknown or its one known flow is its only one |
| `SyncProtocol.DumpAfterStrayDelete` | src/nodes/sync_node.c:44-78 | a concrete message sequence after which a dump leaves the count of a client one short |
| `SyncProtocol.SyncNode.Process` | src/nodes/sync_node.c:28-104 | a backup applies changes and ignores requests, an active the reverse |
| `SyncProtocol.SyncNode.SwitchMode` | src/nodes/sync_node.c:21-26 | the node leaves backup mode |
| `Conntrack.DeleteKeeps` | src/dp_flow.c:215-240 | deleting a key keeps counters equal to key counts, values freed once, the cache right and the NAT tables in step |
| `Conntrack.LastKeyFrees` | src/dp_flow.c:269-291 | a value is freed, and its port released, with its last key and only then |
| `Conntrack.InsertKeepsIff` | src/dp_cntrack.c:151-207 | a new entry keeps all of it exactly if its reply key is fresh and not the key itself |
| `Conntrack.HitRight` | src/dp_cntrack.c:342-381 | a cache hit returns the value the table holds for the key, a live one |
| `Conntrack.LookRight` | src/dp_cntrack.c:342-381 | a lookup refines the table, by cache, by table or by a new entry |
| `Conntrack.DnatKeepsIff` | src/nodes/dnat_node.c:73-88 | destination NAT keeps all of it exactly if the move of the reply key is safe |
| `Conntrack.VipKeepsIff` | src/nodes/snat_node.c:24-77 | the same for a virtual IP |
| `Conntrack.SnatKeepsIff` | src/nodes/snat_node.c:24-144 | source NAT of any first packet keeps all of it exactly if a NAT64 header can be translated, the reply key can be inserted, the counter has room and the move is safe |
| `Conntrack.UntranslatableLeaks` | src/nodes/snat_node.c:101-104 | ICMPv6 of type 1 towards the NAT64 prefix, on an empty table: the port stays taken and no flow owns it |
| `Conntrack.SweepRight` | src/dp_flow.c:433-514 | deleting any list of keys keeps all of it and removes exactly those keys |
| `Conntrack.RemovalExact` | src/dp_flow.c:406-514 | each of the five removal functions removes exactly the keys its condition names and keeps the rest, values and ports included; `Sweeps` says what the conditions are |
| `Conntrack.WholeRemovalExact` | src/dp_flow.c:406-514 | a removal takes whole flows, both keys and the port, and leaves the others untouched if and only if its condition does not tell the two keys of a flow apart; aging and the removals by NAT type and by balancer target never do |
| `Sweeps.AgingRight` | src/dp_flow.c:406-431 | after aging exactly the flows whose timestamp plus timeout lies before now are gone, and the others are untouched |
| `Sweeps.SafeUntilDeadline` | src/dp_flow.c:406-431 | a flow survives any number of aging sweeps up to its deadline |
| `Sweeps.PacketPutsOff` | src/dp_cntrack.c:383-416 | a packet puts the deadline off by the flow's timeout, and no more |
| `Sweeps.NatFlowsRight` | src/dp_flow.c:440-456 | no flow of that port and NAT type is left, and every other is untouched |
| `Sweeps.NeighNatRight` | src/dp_flow.c:458-476 | no key towards that address and port range of the network is left, and every other is |
| `Sweeps.IfaceFlowsRight` | src/dp_flow.c:478-496 | no flow that began at the port is left, and of the others no key of the network whose flow goes to the address |
| `Sweeps.LbTargetRight` | src/dp_flow.c:498-514 | no flow relayed to the target is left, and every other is untouched |
| `Sweeps.TypedFlowsGo` | src/nodes/snat_node.c:33-37 | flows sent with a virtual IP, and relayed ones, are among those that removing their kind takes |
| `Sweeps.RelayedFlowGoes` | src/nodes/lb_node.c:24-34 | a relayed flow goes with its target |
| `Answers.NewFlow` | src/dp_cntrack.c:151-207 | a first packet makes a flow under its key and the inverse, with its port, time and timeout and no NAT |
| `Answers.PlainAnswerReaches` | src/dp_cntrack.c:342-381 | the answer to a first packet gets the flow the packet made |
| `Answers.NatAnswerReaches` | src/nodes/snat_node.c:24-144 | the same after source NAT, for every packet that can be answered; the flow keeps its key, port and time |
| `Answers.Nat64AnswerableIff` | src/dp_nat.c:378-412 | the packets that can be translated to IPv4 are those that can be answered |
| `Answers.VipAnswerReaches` | src/nodes/snat_node.c:24-77 | the same for a virtual IP |
| `Answers.DnatAnswerReaches` | src/nodes/dnat_node.c:73-88 | the same for destination NAT |
| `Conntrack.StepKeepsIff` | src/dp_cntrack.c:151-381 | from a good state every step, with every packet a NAT interface can send, leads to a good one exactly if it meets its condition, which can be checked before it |
| `Conntrack.RunKeeps` | include/dp_refcount.h:22-47 | in every state of every run of such steps the counters are key counts, each value is live or was freed once, the cache agrees with the table and the NAT tables hold the live flows' ports |
| `NatFlows.StepKeepsShape` | src/nodes/snat_node.c:24-144 | a NAT flow stays filed under the original key that can be rebuilt from its replicated entry, and under its own reply key |
| `FlowTable.Table.constructor` | src/dp_flow.c:25-35 | the empty table is a good state |
| `FlowTable.Table.RefDec` | include/dp_refcount.h:41-47 | the counter falls, and the value goes with it at zero |
| `FlowTable.Table.FreeFlow` | src/dp_flow.c:269-291 | freeing releases the port, flushes the cache and drops the value |
| `FlowTable.Table.DeleteFlow` | src/dp_flow.c:215-240 | a key that is not there leaves the counter alone |
| `FlowTable.Table.InsertEntry` | src/dp_cntrack.c:151-207 | one value under its key and the inverse, counted twice |
| `FlowTable.Table.GetFlowVal` | src/dp_cntrack.c:342-381 | the packet gets the value of its key; a known flow is live and nothing is disturbed |
| `FlowTable.Table.MoveReply` | src/nodes/snat_node.c:63-76 | delete, rewrite and add as specified |
| `FlowTable.Table.Dnat` | src/nodes/dnat_node.c:73-88 | the node's effect on the flow is the specified one |
| `FlowTable.Table.Snat` | src/nodes/snat_node.c:24-144 | the same for source NAT, failing translation and insertion included |
| `FlowTable.Table.RemovePort` | src/dp_nat.c:900-922 | the port goes if the flow's keys name one |
| `FlowTable.Table.Sweep` | src/dp_flow.c:406-514 | the deleting iteration, in any order, leaves a good state without exactly the keys that the removal names |
| `FlowTable.Table.ProcessAgedFlows` | src/dp_flow.c:406-431 | the table without exactly the flows past their deadline |
| `FlowTable.Table.RemoveNatFlows` | src/dp_flow.c:440-456 | the table without exactly that port's flows of that NAT type |
| `FlowTable.Table.RemoveNeighnatFlows` | src/dp_flow.c:458-476 | the table without exactly the keys towards that NAT range |
| `FlowTable.Table.RemoveIfaceFlows` | src/dp_flow.c:478-496 | the table without exactly the flows and keys of that interface |
| `FlowTable.Table.RemoveLbtargetFlows` | src/dp_flow.c:498-514 | the table without exactly the flows relayed to that target |
| `FlowTable.Table.FromSync` | src/dp_cntrack.c:210-310 | one replicated entry becomes a flow unless its stored key is known |
| `FlowTable.Table.CreateSyncFlows` | src/dp_nat.c:938-960 | every replicated entry is turned into a flow once |
| `Replication.EventKeepsGood` | src/dp_nat.c:725-922 | each step of the active with the messages it sends, each dump and each delivery leaves the backup, once all has arrived, with the active's tables and the metadata of every live flow |
| `Replication.RunKeepsGood` | src/nodes/sync_node.c:28-104 | so in every state of every run of the two instances, in-order and lossless |
| `Replication.AddressKeptIff` | src/dp_nat.c:687-723 | a step leaves every client on one NAT address exactly if the packet it grants a port asks for the address the client has |
| `Replication.RunKeepsAddress` | src/dp_nat.c:687-775 | so over every run of such steps |
| `Failover.FailoverIff` | src/dp_nat.c:938-960 | the restored table is a good state that carries every entry, under its two keys and owning its allocation, exactly if no two keys of the entries meet |
| `Failover.HairpinIff` | src/dp_cntrack.c:210-310 | an original key is another entry's reply key exactly if its client talks to the other's NAT port from the other's peer |
| `Failover.PortKeysDistinctIff` | src/dp_cntrack.c:210-310 | TCP and UDP keys of entries on one NAT address meet exactly in that case |
| `Failover.HairpinEntries` | src/dp_cntrack.c:210-310 | a concrete pair that does, in tables that are in step |
| `Takeover.NatKeysIff` | src/dp_cntrack.c:210-310 | the keys a live NAT flow is filed under are the two restored for it exactly if it has two and its reply is not ICMPv6 |
| `Takeover.RestorableDistinct` | src/dp_cntrack.c:210-310 | the active's own table keeps the restored keys apart |
| `Takeover.TakeoverIff` | src/dp_nat.c:938-960 | the new active has a good state whose keys are exactly those of the old one's NAT flows, each owning the same port and begun at the same interface, if and only if every such flow has both keys and no ICMPv6 reply |
| `Takeover.TakeoverStamps` | src/dp_cntrack.c:217-262 | every restored flow has its full timeout from the takeover on and no relay target |
| `Takeover.NatRemovalCommutes` | src/dp_flow.c:440-456 | removing a port's NAT flows from the new active leaves what it would have left of the old one's NAT part |
| `Takeover.RunTakeoverIff` | src/dpdk_layer.c:160-170 | the same after every run of the two instances with nothing under way |
| `Takeover.StartedTakeoverIff` | src/dpdk_layer.c:160-170 | the same for runs from two instances that have just started |
| `Takeover.NewActiveShaped` | src/dp_nat.c:938-960 | the new active is again one that a backup can follow |
| `Takeover.FreshStandbyIff` | src/dp_flow.c:516-536 | an empty standby is in sync after a full dump exactly if every NAT flow is filed under its stored original key |
| `Takeover.FreshStandbyTakeover` | src/dp_flow.c:516-536 | its takeover then works under the same condition |
| `SecondStandby.SecondStandbyIff` | src/dp_flow.c:516-536 | after a takeover that worked, a fresh standby is in sync with the new active after its full dump exactly if every client is an IPv4 one |
| `SecondStandby.Nat64LostLater` | src/dp_flow.c:531-532 | a run with one NAT64 flow: the takeover works, the new active's dump is empty and the next standby is not in sync |
| `Takeover.HalfRemoved` | src/dp_flow.c:458-476 | a removal that takes one key of a NAT flow and not the other leaves a good state that cannot be taken over |
| `Takeover.HalfRemovedFlow` | src/dp_flow.c:458-476 | a concrete flow to which this happens, begun before a neighbour's NAT entry for its destination was made and later removed |
| `IpsecSad.IndexOf` | src/dp_ipsec.c:486-495 | the first slot with the wanted content, or none |
| `IpsecSad.FreeSlotIff` | src/dp_ipsec.c:532-536 | a free slot exists exactly if fewer than 64 associations are live |
| `IpsecSad.Capacity` | src/dp_ipsec.c:497-553 | as many keys as associations, at most 64 |
| `IpsecSad.FindIff` | src/dp_ipsec.c:400-411 | a name finds an association exactly if its full identity matches |
| `IpsecSad.CreateRight` | src/dp_ipsec.c:497-553 | exactly when creation succeeds, what it adds, and that failure changes nothing |
| `IpsecSad.CreatedAsAsked` | src/dp_ipsec.c:497-553 | creation succeeds exactly for a supported association that clashes with none, with room and luck, and stores field by field what was asked, of the addresses the prefixes |
| `IpsecSad.CreateExplained` | src/dp_ipsec.c:497-553 | each refusal names a reason that holds of the request or the database |
| `IpsecSad.UpdateRight` | src/dp_ipsec.c:555-624 | exactly when replacement succeeds, that failure changes nothing, and that the database stays valid exactly if the key is the same |
| `IpsecSad.RekeyedAsAsked` | src/grpc/dp_grpc_impl.c:1008-1035 | after a rekey the key leads to an association with the new SPI, algorithm, secret, window and sequence numbering asked for |
| `IpsecSad.UpdateExplained` | src/dp_ipsec.c:555-624 | each refusal of a replacement names a reason that holds |
| `IpsecSad.RenewedSameKey` | src/grpc/dp_grpc_impl.c:1008-1035 | the handler's requests keep the key |
| `IpsecSad.FullCannotRekey` | src/dp_ipsec.c:555-624 | with 64 live associations no replacement succeeds |
| `IpsecSad.FullDatabaseRefuses` | src/dp_ipsec.c:555-624 | after 64 creations a well-formed replacement of an association that is found is refused, with every foreign call succeeding |
| `IpsecSad.ReplacingGapless` | src/dp_ipsec.c:598-622 | in each state of a replacement the key resolves to the old or the new association, other keys are untouched, and the old one is freed only when unreachable |
| `IpsecSad.StaleSpiNamesNothing` | src/dp_ipsec.c:400-411 | after a rekey the old wire SPI finds nothing, the new one the replacement |
| `IpsecSad.DeleteRight` | src/dp_ipsec.c:626-655 | exactly the named association goes, or nothing changes |
| `IpsecSad.KeyFixesDirection` | src/dp_ipsec.c:356-422 | a key with a non-local side finds associations of one direction only |
| `IpsecSad.LocalKeyFitsBoth` | src/dp_ipsec.c:417-422 | a key with two local sides can find either |
| `IpsecSad.ServeRefines` | src/grpc/dp_grpc_impl.c:973-1035 | a request does to the database what it does to a plain map, or nothing |
| `IpsecSad.RunRefines` | src/dp_ipsec.c:441-655 | after any run of requests index, slots and associations are in bijection, each filed under its direction's key, at most 64, and equal to the plain map |
| `IpsecSad.AlwaysSupported` | src/dp_ipsec.c:417-435 | whatever was asked, every association has a known algorithm, this host at its own end, and a replay window only where one is used and not above 4096 |
| `IpsecDatabase.Database.constructor` | src/dp_ipsec.c:281-301 | an empty database is valid |
| `IpsecDatabase.Database.BuildSa` | src/dp_ipsec.c:441-482 | building takes a session, and gives back what it took when it fails |
| `IpsecDatabase.Database.CreateSa` | src/dp_ipsec.c:497-553 | in place, as specified, staying valid |
| `IpsecDatabase.Database.UpdateSa` | src/dp_ipsec.c:555-624 | in place, through gapless states only |
| `IpsecDatabase.Database.DeleteSa` | src/dp_ipsec.c:626-655 | in place, as specified, staying valid |
| `IpsecDatabase.Database.GetSa` | src/dp_ipsec.c:657-670 | returns the association with that full name, or says there is none |
| `IpsecDatabase.Database.Free` | src/dp_ipsec.c:331-354 | no association outlives the database |
| `IpsecBurst.OpsDiffer` | src/nodes/ipsec_decap_node.c:135-160 | no two packets of a burst share an operation |
| `IpsecBurst.GroupsAgree` | src/nodes/ipsec_decap_node.c:176-193 | whatever the grouping, the operations found fine are the completed and sound ones |
| `IpsecBurst.Prepare` | src/nodes/ipsec_decap_node.c:135-160 | each accepted and framed packet gets the next operation |
| `IpsecBurst.ProcessBurst` | src/dp_ipsec.c:672-689 | completed operations are written back over the device's copy |
| `IpsecBurst.Process` | src/nodes/ipsec_encap_node.c:77-173 | for every completion order and failure pattern a flag is clear exactly if the packet passed every stage, and each operation is freed once |
| `IpsecBurst.Node` | src/nodes/ipsec_encap_node.c:77-173 | each packet is enqueued once, forward exactly if it passed |
| `TunnelPolicy.DeliveredIff` | src/nodes/cls_node.c:186-236 | exactly which frames reach connection tracking, and where |
| `TunnelPolicy.EncryptedEndpoint` | src/nodes/cls_node.c:216-224 | a frame delivered at an encrypting interface was decrypted under an association of that endpoint's VNI and of the frame's two prefixes, an ingress one with the SPI of the frame if the sender is another host; ESP is never delivered at a cleartext one |
| `TunnelPolicy.ShortFrameFindsNothing` | src/nodes/ipsec_decap_node.c:31-44 | the zero key finds nothing if the underlay prefix is not zero |
| `TunnelPolicy.ShortFrameZeroPrefix` | src/nodes/ipsec_decap_node.c:31-44 | with a zero prefix it can |
| `TunnelPolicy.OutboundRight` | src/nodes/ipip_encap_node.c:36-100 | to another host a frame of an encrypting interface leaves under an egress association made for its VNI and this pair of hosts, exactly if there is one and the crypto operation is sound, and is lost otherwise |
| `TunnelPolicy.RecirculatedStaysClear` | src/nodes/lb_node.c:24-34 | a tunnel frame without ESP, as a recirculated one is, reaches no encrypting interface |
| `TunnelPolicy.StaysInVni` | src/nodes/ipsec_encap_node.c:77-173 | from host to host, what leaves an encrypting interface arrives at encrypting interfaces of the same VNI only |
| `TunnelPolicy.DecapNode` | src/nodes/ipsec_decap_node.c:98-200 | for every completion order the node forwards exactly the frames it accepts whose own operation is sound and that are tunnel frames inside |
| `TunnelPolicy.EncapNode` | src/nodes/ipsec_encap_node.c:77-173 | the same on the way out |
| `TunnelPolicy.BurstDelivers` | src/dp_vnf.c:278-301 | a burst delivers each frame as the single-frame path does, with the endpoint resolved once |
| `VirtSvc.FreePortRight` | src/dp_virtsvc.c:235-254 | a slot is found exactly if some connection is old, and it is the next one round; `OfferedByClock` says what old means |
| `VirtSvc.OfferedByClock` | src/dp_virtsvc.c:225-254 | a slot is not given away within 30 seconds of its last packet, or a day if established, and is after that when every slot before it in turn is within its time |
| `VirtSvc.EstablishedIff` | src/nodes/virtsvc_node.c:28-52 | a connection is established exactly if its packets hold SYN, SYN-ACK and ACK in this order with no FIN or RST since the SYN |
| `VirtSvc.GivenUpOfferedIff` | src/dp_virtsvc.c:225-233 | when a slot given up by its interface is offered again |
| `VirtSvc.GivenUpNotOffered` | src/dp_virtsvc.c:358-383 | a valid table of all 64512 slots that has no client left after its interface is deleted, and refuses every new one an hour later |
| `VirtSvc.RequestRight` | src/dp_virtsvc.c:287-355 | a request leaves a known client its slot and disturbs only an old connection; exactly when it fails, and exactly when the tables stay inverse |
| `VirtSvc.RequestSlots` | src/nodes/virtsvc_node.c:106-135 | a request dates its client's slot and moves its state on, from the start for a new client, and touches no other |
| `VirtSvc.NextNewcomer` | src/dp_virtsvc.c:235-254 | of two newcomers in a row the second gets the first overdue slot behind the first one's |
| `VirtSvc.ReplySlots` | src/nodes/virtsvc_node.c:200-230 | a reply dates the slot of its port and moves its state on, and touches no other |
| `VirtSvc.ReplyRestores` | src/nodes/virtsvc_node.c:151-156 | a reply to the port a request left with reaches exactly that client, unless the counter stood at zero |
| `VirtSvc.ReplyRight` | src/nodes/virtsvc_node.c:151-230 | a reply to any port goes to the one client that holds its slot, nowhere, or past the table, the last exactly below port 1024 |
| `VirtSvc.DistinctPorts` | src/nodes/virtsvc_node.c:54-58 | distinct clients have distinct ports |
| `VirtSvc.SlotOfIff` | src/nodes/virtsvc_node.c:151-156 | a port stands for a slot of the table exactly from 1024 on, and then for the one it was assigned for; port 80 does not |
| `VirtSvc.SyncRight` | src/dp_virtsvc.c:433-480 | a message puts the client into the named slot only and forgets who had it; the tables stay inverse exactly if the counter is not zero |
| `VirtSvc.SyncSlots` | src/dp_virtsvc.c:433-480 | the named slot starts anew, the client's former one is given up, and no other is touched |
| `VirtSvc.DelIfaceRight` | src/dp_virtsvc.c:358-383 | exactly the interface's clients are forgotten |
| `VirtSvc.StepRight` | src/dp_virtsvc.c:225-480 | an event stays within the table, keeps the tables inverse and takes a client's slot exactly in the cases named |
| `VirtSvc.RunRestores` | src/nodes/virtsvc_node.c:106-118 | over every run a client keeps its slot and gets its replies until one of them happens |
| `VirtSvc.HeldInTime` | src/dp_virtsvc.c:225-254 | over every run of requests, replies and deletions of other interfaces a client keeps its slot and gets its replies for 30 seconds after its last packet, or for a day while established and not closed |
| `VirtSvcSync.DropKeepsIff` | src/dp_virtsvc.c:358-383 | deleting an interface on both sides keeps them in step exactly if no connected client of it has its message under way; what the backup ends with in any case |
| `VirtSvcSync.StepKeepsIff` | src/dp_virtsvc.c:287-480 | whatever happens keeps the two in step exactly if it meets its condition |
| `VirtSvcSync.BackupFollows` | src/dp_virtsvc.c:287-311 | over every run of requests, replies, deliveries and deletions of interfaces, each meeting its exact condition, the backup has the same clients in the same slots whenever nothing is under way |
| `VirtSvcSync.LateMessageRevives` | src/dp_virtsvc.c:358-383 | any client's first request on fresh instances, its interface deleted with the message under way: the backup ends with the client, the active without |
| `VirtSvcSync.DumpMerges` | src/dp_virtsvc.c:482-496 | what a dump makes of any backup |
| `VirtSvcSync.DumpRebuilds` | src/dp_virtsvc.c:482-496 | an empty backup becomes an equal |
| `VirtSvcTable.Table.GetFreePort` | src/dp_virtsvc.c:235-254 | the two loops find the specified slot |
| `VirtSvcTable.Table.UsePort` | src/dp_virtsvc.c:256-285 | taking over a slot, as specified |
| `VirtSvcTable.Table.Request` | src/nodes/virtsvc_node.c:106-135 | in place, as specified, and staying inverse exactly under the condition named |
| `VirtSvcTable.Table.Reply` | src/nodes/virtsvc_node.c:151-230 | in place, as specified, for every port; the answer says where the index is past the table |
| `VirtSvcTable.Table.OpenSyncConnection` | src/dp_virtsvc.c:433-480 | in place, as specified, for every slot number; the answer says whether there is such a slot |
| `VirtSvcTable.Table.DelIface` | src/dp_virtsvc.c:358-383 | the pass over all slots has the specified effect |

## Left out

- DPDK itself: hash tables, mempools, librte_ipsec framing and replay windows, the crypto device; they appear as maps and as outcomes the theorems quantify over.
- Hardware offload, age contexts and asynchronous flow rules; the models are those of a process without offloading.
- gRPC transport, protobuf conversion, command line clients, configuration.
- DHCP, ARP, neighbour discovery and periodic messages.
- Firewall rules: single-branch matching whose verdict the node ignores at present.
- The virtual-service lookup trees, whose IPv4 order is a wrapped difference and not a total order; one service is modelled.
- The VNF reverse table, which is not inverse to the forward one by design.
- Header bytes, checksums, telemetry, logging and packet capture: models take extracted header fields.
- The load balancer's own lookup tables and its choice of what to recirculate; a recirculated frame is any tunnel frame without ESP.
- An interface with both a virtual IP and a NAT address: only the NAT part of its double write is modelled.
- Port MAC messages between the two instances, and ICMP checksums in the metadata.
- ICMP errors as the first packet of a flow that is then NATted: their keys come from the embedded header.
- What the memory past a virtual service's array holds: the models stop where the code reads or writes there.
- Insertions into a flow or connection hash table that fail for lack of room, except for the reply key of source NAT.
- Aliasing and memory reuse: flow values and associations are named by identities, not addresses.
- Replication.RunKeepsGood: messages arrive in order and none is lost, as on the direct link; `SyncProtocol.DumpAfterStrayDelete` shows what a late listener misses.
- VirtSvcSync.BackupFollows: both sides delete an interface at the same moment, and replies to ports below 1024 are left out.
- VirtSvc.HeldInTime: the clock does not go back and stays a day away from wrapping, and messages from a peer are aside.
- VirtSvcSync.DumpMerges: the backup's cycle counter is not zero while the dump arrives; `VirtSvc.SyncRight` says what zero does.
