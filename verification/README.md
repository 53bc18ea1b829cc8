# Head-end system: verified model

The head-end system wakes metering devices once a day. Several nodes share one table that records
which node owns each device. They detect each other's failures, hand devices over when one shuts
down or dies, and talk over UDP. This project models that behaviour in Dafny and proves it correct,
or proves exactly when it is correct where it is not always.

`dafny verify dfyconfig.toml` checks the whole project.

## What is modelled

| area | modules |
|---|---|
| handover on shutdown, over a network that loses, repeats and reorders messages | `ShutdownPlan`, `Handover` |
| failover with any number of survivors writing at the same time | `Failover`, `Redistribution` |
| one node's device manager and the shared table | `Database`, `DeviceManager`, `Rebalance` |
| join discovery under every order of delivery | `Discovery` |
| membership and failure detection, as a unit and step by step | `Membership`, `Detector` |
| the cluster wire format, byte by byte | `Bytes`, `Text`, `Address`, `ClusterPayload`, `ClusterRoundTrip`, `ClusterDecode`, `ClusterCodec`, `WireLayout`, `ClusterExact`, `ByteBuffer`, `ClusterBuffer` |
| the framing of device messages | `DeviceFrame` |
| buckets, wake-up times, the daily cadence, the retry loop | `Database`, `WakeTimes` |
| the registration handshake with interleaved handlers | `Registration` |

`Basics` and `Sorting` hold shared definitions.

Protocols are step systems: a state, an enabledness predicate, a step function, and runs as
sequences. The network of a handover is the set of all messages ever sent, so any of them may be
delivered late, twice or never. Objects that change are classes whose methods state their whole new
state. Collections the source keeps in hash maps are visited in an arbitrary order.

Clocks, probe outcomes, scheduling failures, replies of devices and the acceptance of a message body
by its coder are parameters. Identifiers are numbers. Loads are real numbers and the conversions to
integers round down. Times are whole seconds or milliseconds, and `now` never decreases. The text of
socket addresses is that of the Rust standard library, which is not part of the repository: printed
as section 4 of RFC 5952 says, parsed in the forms of section 2.2 of RFC 4291.

## Where the code does not do what one might expect

Each of these is a theorem, with the exact condition under which the expected property holds.

- `handle_delegation_accept` releases devices without looking at the table. A step takes a device
  out of service exactly when it releases a device still recorded for the releasing node
  (`StepKeepsServiceIff`). Two concrete runs reach that state: delegation in both directions, and
  draining that starts while the node is accepting devices. Neither can happen when only draining
  nodes offer devices and draining starts between messages. A whole run keeps service exactly when
  no such release occurs in it (`RunKeepsServiceIff`).
- A survivor that redistributes a dead node's devices writes other nodes into the table but tells
  nobody, and several survivors do so at once. The recorded node holds the device exactly when it
  wrote it to itself (`RecordedOwnerHoldsIffKept`). Two concrete runs end with a device held by
  two nodes and by none.
- Lengths are cast to sixteen bits. A cluster message survives encoding exactly when its lengths and
  numbers fit (`RoundTripIff`).
- Reading an optional string does not check for its flag and length bytes. The exact datagrams on
  which decoding panics are given by `DecodePanicsIff`, and `CutRequestPanics` shows one.
- The flow information of an IPv6 socket address is lost (`AddrRoundTripIff`).
- Peers that go silent while starting or draining are never removed (`PassRemovesIff`).
- With more buckets than seconds in a day, all buckets share midnight (`SlotsIncreaseIff`).
- The time told to a device and the time the next job is created for agree exactly when no time at
  all passes before the first session computes it (`Cycle`).
- A device can be refused and registered at once (`RefusedAndRegistered`). It is registered exactly
  when a handler that read the pending status has written, and refused exactly by handlers that read
  the timeout (`RegisteredIffWritten`). Every ACK that reads the pending status and is scheduled
  creates a job of its own (`OneJobPerPendingRead`).

A comment in `src/common/messages/codec.rs` reports an off-by-one error in the payload length. The
code has no such error; the model follows the code.

## Model

| member | source | states |
|---|---|---|
| ShutdownPlan.PlanIsPartition | src/cluster/delegation.rs:313-326 | the requests concatenate to the device list, request i goes to target i so the modulo never wraps, none is empty, and they are shared fairly as the next row says |
| ShutdownPlan.PlanIsFair | src/cluster/delegation.rs:313-316 | with n devices and m targets, every request r satisfies r * m < n + m, all requests but the last are equally large, and the last is not larger |
| ShutdownPlan.OfferIsUnique | src/cluster/delegation.rs:316-325 | for distinct devices, two requests that share a device are the same request |
| ShutdownPlan.OfferedOnce | src/cluster/delegation.rs:316-325 | every device is offered to exactly one target |
| ShutdownPlan.SendOffers | src/cluster/delegation.rs:314-326 | the chunking loop sends exactly the planned requests, covers every device once, and shares fairly as PlanIsFair says |
| ShutdownPlan.ShutdownDelegation | src/cluster/delegation.rs:266-330 | it fails exactly when there are devices but no active node; otherwise all devices are offered, shared fairly, to nodes in order of increasing device count |
| Handover.StepKeepsServiceIff | src/cluster/delegation.rs:225-246 | for every step from a good state: the recorded owners still hold their devices if and only if the step is not a release of a device recorded for the releasing node |
| Handover.RunKeepsServiceIff | src/cluster/delegation.rs:225-246 | for every run, disciplined or not: all its states are in service if and only if no release in it names a device recorded for the releasing node at that moment |
| Handover.StepIsSound | src/cluster/delegation.rs:126-246 | every disciplined step keeps the invariant that links table, sets, acceptances in progress and messages in the network |
| Handover.StepFollowsPlan | src/cluster/delegation.rs:126-246 | with one draining node, every step keeps messages, acceptances, owners and sets within its plan |
| Handover.HandoverKeepsDevicesInService | src/cluster/delegation.rs:60-330 | in every state of every disciplined run, with any number of draining nodes, lost, repeated and reordered messages and failing acceptances, each recorded owner holds its devices |
| Handover.AcceptAll | src/cluster/delegation.rs:171-191 | from any state of any run, a free node that is not draining can accept a request: it is then recorded for and holds exactly the devices of the request, the accept is sent, and nothing else changes |
| Handover.AcceptFails | src/device_manager/device_manager.rs:297-319 | an acceptance that fails after k devices leaves exactly these taken, sends nothing, and frees the node |
| Handover.SoleSourceHandover | src/cluster/delegation.rs:263-330 | with one draining node and some active node, each of its devices has exactly one target, stays held by the source or that target, and, if recorded for the source, stays recorded for the source or that target |
| Handover.ReleasedForGood | src/cluster/delegation.rs:236-243 | a device released by a draining node never comes back to it |
| Handover.DrainingNeverGains | src/cluster/delegation.rs:140-175 | a draining node gains no device in any later state of a disciplined run |
| Handover.CompleteHandoverEmptiesSource | src/cluster/manager.rs:234-276 | if there was an active node to send to, then once all accepts of the plan are processed, the drained node holds nothing and the table names it nowhere |
| Handover.TwoWayDelegationLosesDevice | src/cluster/delegation.rs:225-246 | a run in which two nodes delegate to each other ends with a device held by nobody |
| Handover.DrainingDuringAcceptanceBreaksService | src/cluster/manager.rs:237-252 | a run with planned requests only, in which draining starts during an acceptance and every node handles one message at a time, ends with the recorded owner not holding the device |
| Failover.StepIsSound | src/device_manager/device_manager.rs:369-380 | each interleaved write, start, failure or end of a redistribution keeps the invariant on owners and on work in progress |
| Failover.FailoverMovesExactlyTheOrphans | src/device_manager/device_manager.rs:338-388 | once any survivor has finished, no device is the dead node's, each of its devices is with a listed target, and all other owners are unchanged, whatever the interleaving |
| Failover.LateSurvivorChangesNothing | src/device_manager/device_manager.rs:343-351 | every step of a redistribution that starts after another one has finished leaves owners and sets as they are |
| Failover.RedistributeAlone | src/device_manager/device_manager.rs:343-388 | a survivor that works alone writes exactly the round-robin owners, adds exactly its own devices, and counts as finished |
| Failover.RedistributionFails | src/device_manager/device_manager.rs:369-380 | one that fails after k writes leaves exactly these, and does not count as finished |
| Failover.HeldIffKept | src/device_manager/device_manager.rs:376-379 | in every run a node holds a device if and only if it held it at the start or wrote it to itself at some step |
| Failover.RecordedOwnerHoldsIffKept | src/device_manager/device_manager.rs:369-380 | for any number of survivors and any interleaving, once one has finished: the recorded owner of an orphan holds it if and only if that owner wrote it to itself at some step |
| Failover.RedistributedDeviceIsHeldIffKept | src/device_manager/device_manager.rs:369-380 | corollary: when one survivor does all the work, the recorded node holds an orphan exactly when it is that survivor |
| Failover.HeldByANodeTheTableDoesNotName | src/cluster/server.rs:642-646 | a run of two survivors after which both hold the device and the table names one of them |
| Failover.HeldByNobody | src/cluster/server.rs:642-646 | a run of two survivors after which nobody holds the device |
| Redistribution.OrderedFacts | src/device_manager/device_manager.rs:359-362 | the targets are exactly the other active nodes and the local one, in order of increasing count, and distinct if the given nodes are |
| Redistribution.FairShares | src/device_manager/device_manager.rs:369-370 | each target gets the rounded-down share, and one more exactly for the first k mod n targets |
| Redistribution.SpreadDoesNotGrow | src/device_manager/device_manager.rs:359-380 | after redistribution two reported counts differ by at most the largest difference before, or one |
| Redistribution.OwnedAfter | src/device_manager/device_manager.rs:369-374 | in the table, each target is recorded for exactly that many more devices |
| Redistribution.SpreadInTable | src/device_manager/device_manager.rs:359-380 | over the list the code builds: each target gains exactly its share of the rows, and counts, and rows if the reports were accurate, end no further apart than the largest difference before, or one |
| Discovery.Reported | src/cluster/server.rs:370-381 | the list sent back has exactly the reachable peers other than the asking node |
| Discovery.JoinsTo | src/cluster/server.rs:450-472 | joins go exactly to the reported nodes that are not listed |
| Discovery.DeliveryDecreases | src/cluster/server.rs:405-546 | every delivery decreases (nodes to list, packets to or from listed nodes, joins to unlisted nodes) lexicographically |
| Discovery.DeliveryIsSound | src/cluster/server.rs:405-546 | only running reachable nodes ever list the joiner, and each is listed or has an answer under way |
| Discovery.DeliveryIsComplete | src/cluster/server.rs:405-475 | every seed and every peer of a listed node is listed or has a packet under way |
| Discovery.DeliveryProgress | src/cluster/server.rs:355-546 | every delivery keeps the soundness and completeness invariants and makes progress |
| Discovery.QuietMeansExact | src/cluster/server.rs:421-475 | with nothing in flight, the listed nodes are exactly the reachable ones and all of them list the joiner |
| Discovery.Discover | src/cluster/manager.rs:124-148 | discovery ends under every delivery order; the joiner lists exactly the running nodes reachable from its seeds, and exactly those list it |
| Address.AddrRoundTrip | src/cluster/protocol/payload.rs:178-217 | parsing a printed IPv4 or IPv6 socket address, with any scope, gives it back |
| Address.AddrRoundTripIff | src/cluster/protocol/payload.rs:178-217 | a socket address survives printing and parsing if and only if it carries no IPv6 flow information |
| Address.Host6RoundTrip | src/cluster/protocol/payload.rs:206-217 | the text of any IPv6 host, with zeros compressed or an IPv4 part, is read back in front of what follows it |
| Address.ParsedIsPrinted | src/cluster/protocol/payload.rs:206-217 | every text parsed as an IPv4 address is the printed form of the result, up to leading zeros of the port |
| Address.PrintedIsParsed | src/cluster/protocol/payload.rs:206-217 | the other direction: that form is accepted, with any number of zeros before the port |
| Address.GroupInAnyForm | src/cluster/protocol/payload.rs:206-217 | a group of an IPv6 address is read from one to four digits of either case, with or without leading zeros |
| Address.ReprintingIsStable | src/cluster/protocol/payload.rs:206-217 | an address parsed from any text is the same after printing and parsing again |
| Address.AddrTextIsShortUtf8 | src/cluster/protocol/payload.rs:179-182 | an address text is valid UTF-8 of at most 70 bytes, so it always fits its length prefix |
| Address.Punctuation | src/cluster/protocol/payload.rs:178-182 | the literal separators of `a.b.c.d:port`, `[host]:port` and `[host%scope]:port` |
| Address.Punctuation6 | src/cluster/protocol/payload.rs:178-182 | groups are joined by colons, and the first longest run of two or more zero groups is printed as a double colon |
| Address.MappedPunctuation | src/cluster/protocol/payload.rs:178-182 | an IPv4-mapped address is printed as `::ffff:` and an IPv4 host |
| Address.HexIsNumeral | src/cluster/protocol/payload.rs:178-182 | groups are lower-case hexadecimal numerals without leading zeros |
| Text.DecimalIsNumeral | src/cluster/protocol/payload.rs:178-182 | octets and ports are decimal numerals without leading zeros |
| Text.Utf8Iff | src/cluster/protocol/payload.rs:402-409 | the check of a string accepts exactly the encodings of lists of Unicode code points |
| ClusterRoundTrip.OptionalRoundTrip | src/cluster/protocol/payload.rs:25-50 | an optional string is read back in front of any bytes |
| ClusterRoundTrip.HeartbeatRoundTrip | src/cluster/protocol/payload.rs:107-150 | a heartbeat payload is read back in front of any bytes |
| ClusterRoundTrip.HeartbeatSize | src/cluster/protocol/payload.rs:152-154 | the computed size of a heartbeat payload is the number of bytes written |
| ClusterRoundTrip.LoadRoundTrip | src/cluster/protocol/payload.rs:107-150 | the five load fields are read back one after the other |
| ClusterRoundTrip.NodeJoinRoundTrip | src/cluster/protocol/payload.rs:172-229 | a join payload is read back in front of any bytes |
| ClusterRoundTrip.DeviceRoundTrip | src/cluster/protocol/payload.rs:249-289 | a delegated device, with both optional addresses and a signed time, is read back in front of any bytes |
| ClusterRoundTrip.DelegateRequestRoundTrip | src/cluster/protocol/payload.rs:305-336 | a request with any fitting list of devices is read back in front of any bytes |
| ClusterRoundTrip.DelegateAcceptRoundTrip | src/cluster/protocol/payload.rs:350-373 | an accept payload is read back in front of any bytes |
| ClusterRoundTrip.IdListRoundTrip | src/cluster/protocol/payload.rs:350-373 | a length-prefixed list of identifiers is read back in front of any bytes |
| ClusterRoundTrip.TextRoundTrip | src/cluster/protocol/payload.rs:387-409 | a length-prefixed string is read back in front of any bytes |
| ClusterRoundTrip.DelegateRejectRoundTrip | src/cluster/protocol/payload.rs:387-409 | a reject payload is read back in front of any bytes |
| ClusterRoundTrip.StatusResponseRoundTrip | src/cluster/protocol/payload.rs:497-612 | a status response with its nested list of nodes is read back in front of any bytes |
| ClusterRoundTrip.NodeRoundTrip | src/cluster/protocol/payload.rs:497-612 | one entry of the list of known nodes is read back in front of any bytes |
| ClusterRoundTrip.LegacyStatusIsRead | src/cluster/protocol/payload.rs:548-600 | a status response without the list, followed by at most one byte, is read with an empty list |
| ClusterRoundTrip.ProbeResponseRoundTrip | src/cluster/protocol/payload.rs:651-664 | a probe response is read back in front of any bytes |
| ClusterRoundTrip.ConfigUpdateRoundTrip | src/cluster/protocol/payload.rs:682-720 | a configuration update is read back in front of any bytes |
| ClusterRoundTrip.ConfigUpdateAckRoundTrip | src/cluster/protocol/payload.rs:738-752 | its acknowledgement is read back in front of any bytes |
| ClusterDecode.OptionalFits | src/cluster/protocol/payload.rs:37-50 | on any bytes: the string read fits the format, and the read panics exactly when the flag is missing, or announces a string and the two length bytes are missing |
| ClusterDecode.DeviceFits | src/cluster/protocol/payload.rs:263-289 | on any bytes: the device read fits, and the exact inputs that panic |
| ClusterDecode.DelegateRequestFits | src/cluster/protocol/payload.rs:313-336 | on any bytes: a request that is read fits the format, and the read panics exactly on the requests of the next row |
| ClusterDecode.DelegateRequestPanicsIff | src/cluster/protocol/payload.rs:313-336 | reading a request panics if and only if the devices before some announced one are read and that one ends inside the flag or length of its second address |
| ClusterDecode.StatusResponseFits | src/cluster/protocol/payload.rs:524-612 | on any bytes: what is read fits, and the read never panics |
| ClusterDecode.HeartbeatFits | src/cluster/protocol/payload.rs:120-150 | on any bytes: what is read fits, and the read never panics |
| ClusterDecode.NodeJoinFits | src/cluster/protocol/payload.rs:188-229 | on any bytes: what is read fits, and the read never panics |
| ClusterDecode.ConfigUpdateFits | src/cluster/protocol/payload.rs:690-720 | on any bytes: what is read fits, and the read never panics |
| ClusterDecode.ConfigUpdateAckFits | src/cluster/protocol/payload.rs:744-752 | on any bytes: what is read fits, the flag is set exactly by a one in byte 16, and it panics exactly on 18 or 19 bytes that announce an error text |
| ClusterDecode.ProbeResponseFits | src/cluster/protocol/payload.rs:656-664 | on any bytes: what is read fits, the flag is set exactly by a one in byte 16, and the read never panics |
| ClusterCodec.TypeCodesAreInverse | src/cluster/protocol/message.rs:51-112 | the message codes and their lookup are inverse; which code is which is said by WireLayout.SecondByteIsType |
| ClusterCodec.HeaderRoundTrip | src/cluster/protocol/message.rs:320-343 | the thirty header bytes give the header fields back |
| ClusterCodec.PayloadRoundTrip | src/cluster/protocol/codec.rs:65-110 | the reader chosen by the message type gives back every fitting payload of that type |
| ClusterCodec.PayloadFits | src/cluster/protocol/codec.rs:65-110 | on any bytes, the reader chosen by the type returns a fitting payload of that type, and panics exactly on cut requests and cut configuration acknowledgements |
| ClusterCodec.RoundTrip | src/cluster/protocol/codec.rs:20-110 | decoding an encoded message of any of the fifteen types in front of any bytes gives exactly the message and leaves exactly those bytes |
| ClusterCodec.RoundTripIff | src/cluster/protocol/codec.rs:20-110 | that happens if and only if lengths and numbers fit and the payload is the one of the type |
| ClusterCodec.DecodedIsWellFormed | src/cluster/protocol/codec.rs:20-44 | on any bytes, a decoded message is well formed, and decoding panics exactly on the datagrams of the next row |
| ClusterCodec.DecodePanicsIff | src/cluster/protocol/codec.rs:20-44 | decoding a datagram panics if and only if it has code 0x20 and a cut request after the header, or code 0x61, 48 or 49 bytes and a one in byte 47 |
| ClusterCodec.CutRequestPanics | src/cluster/protocol/payload.rs:263-289 | a datagram of 58 bytes on which decoding panics |
| ClusterCodec.ReencodingIsStable | src/cluster/protocol/codec.rs:20-62 | a message decoded from any datagram is the same after encoding and decoding again |
| ClusterCodec.EncodingIsPrefixFree | src/cluster/protocol/codec.rs:50-61 | different messages have different encodings and none is a prefix of another |
| WireLayout.EncodingIsFields | src/cluster/protocol/codec.rs:50-61 | an encoded message is exactly the concatenation of its fields, listed in order with literal codes and sizes: header, and for each payload which field comes when |
| WireLayout.FieldLies | src/cluster/protocol/codec.rs:50-61 | field i lies exactly after the fields before it |
| WireLayout.PayloadIsWritten | src/cluster/protocol/payload.rs:774-790 | each payload is written as its fields, with literal status, reason and flag bytes |
| WireLayout.HeaderPositions | src/cluster/protocol/message.rs:320-326 | byte 0 is the version, byte 1 the type, bytes 2-17, 18-21 and 22-29 are node, sequence number and timestamp |
| WireLayout.SecondByteIsType | src/cluster/protocol/message.rs:51-112 | each of the fifteen literal codes stands in byte 1 exactly for its type |
| WireLayout.DigitOfNumber | src/cluster/protocol/message.rs:320-326 | numbers are big-endian: byte i of k is the digit of weight 256 to the k - 1 - i |
| WireLayout.LengthIsTwoBytes | src/cluster/protocol/payload.rs:387-391 | a length below 65536 is two bytes, the high one first |
| ClusterExact.DecodeIffEncoded | src/cluster/protocol/codec.rs:20-110 | for the ten types whose payload has one form, on any bytes: they decode to a message and a rest if and only if they are its encoding followed by that rest |
| ClusterExact.DecodeErrors | src/cluster/protocol/codec.rs:20-44 | no message exactly for no bytes, a length error below thirty bytes, an error for every code that is not one of the fifteen |
| ClusterBuffer.WriteMany | src/cluster/protocol/payload.rs:113-116 | the list-writing loops append the items in order after the bytes already there |
| ClusterBuffer.WriteMessage | src/cluster/protocol/codec.rs:50-61 | encoding appends exactly the encoding to the buffer |
| ClusterBuffer.WritePayload | src/cluster/protocol/payload.rs:774-790 | each payload writer appends exactly the wire form of the payload |
| ClusterBuffer.ReadMany | src/cluster/protocol/payload.rs:318-322 | the list-reading loops return what the format says, including errors in the middle, and consume exactly that |
| ClusterBuffer.ReadRequest | src/cluster/protocol/payload.rs:313-336 | the request reader returns what the format says and consumes exactly that |
| ClusterBuffer.ReadAccept | src/cluster/protocol/payload.rs:357-373 | the accept reader returns what the format says and consumes exactly that |
| ClusterBuffer.ReadMessage | src/cluster/protocol/codec.rs:20-44 | on every buffer the decoder returns what the format says; after a message exactly its bytes are consumed, a buffer shorter than a header is discarded, and an unknown type consumes exactly the header |
| ClusterBuffer.WriteThenRead | src/cluster/protocol/codec.rs:20-61 | a message written to an empty buffer is read back and the buffer is empty again |
| DeviceFrame.EncodeFrame | src/common/messages/codec.rs:101-120 | encoding appends header, payload and MAC |
| DeviceFrame.ReadHeader | src/common/messages/codec.rs:50-58 | the thirty header bytes are consumed, and writing the fields read gives them back |
| DeviceFrame.ReadBody | src/common/messages/codec.rs:58-78 | all bytes but the last sixteen are the payload, the rest is the MAC, and nothing is left |
| DeviceFrame.DecodeFrame | src/common/messages/codec.rs:37-89 | the buffer is empty afterwards on every input; a message comes out exactly for valid frames and its frame is the input; each error has its exact condition |
| DeviceFrame.FrameIsInjective | src/common/messages/codec.rs:101-120 | two messages with the same frame are equal |
| DeviceFrame.FrameIsFrame | src/common/messages/codec.rs:50-78 | an encoded message is accepted exactly when its body coder accepts its payload |
| DeviceFrame.FrameIsFields | src/common/messages/codec.rs:101-120 | a frame is exactly version, literal type code, device, sequence number, timestamp, payload and MAC, in this order |
| DeviceFrame.TypesByCode | src/common/messages/message.rs:301-343 | the decoder knows exactly the fifteen literal codes, each as its type |
| DeviceFrame.SendAndReceive | src/common/messages/codec.rs:37-120 | a message of any payload length is received as sent |
| Database.Table.ChooseBucket | src/common/database/in_memory.rs:97-113 | the chosen bucket has the fewest devices and is the lowest such |
| Database.Table.CountAll | src/common/database/in_memory.rs:100-107 | the counting loop counts each bucket in range, whatever the order of the rows |
| Database.ChooseFromGroups | src/common/database/postgres.rs:284-303 | the SQL engine's loop chooses the lowest bucket with the fewest devices, and zero without buckets |
| Database.FirstLeastIsUnique | src/common/database/postgres.rs:284-303 | the lowest bucket with the fewest devices is unique |
| Database.ChooseInBothEngines | src/common/database/postgres.rs:284-303 | both engines choose the same bucket |
| Database.RegisterAll | src/scheduler/scheduler.rs:102-115 | from an empty table the i-th registration lands in bucket i mod total and bucket sizes never differ by more than one |
| Database.Table.SetOwner | src/common/database/in_memory.rs:283-289 | only the owner of an existing row changes |
| Database.Table.AddDevice | src/common/database/in_memory.rs:30-37 | the device becomes known and no row changes |
| Database.Table.AddToBucket | src/common/database/in_memory.rs:115-127 | the row of the device is written and every other row is unchanged |
| Database.Table.DevicesByOwner | src/common/database/in_memory.rs:273-281 | the list has exactly the devices recorded for the node, each once |
| DeviceManager.Manager.RegisterDevice | src/device_manager/device_manager.rs:87-91 | the device is recorded for this node in the least loaded bucket and added to the set; agreement is kept |
| DeviceManager.Manager.LoadFromDatabase | src/device_manager/device_manager.rs:176-192 | the set becomes exactly the devices recorded for this node, so agreement holds |
| DeviceManager.Manager.ClaimUnassigned | src/device_manager/device_manager.rs:198-216 | exactly the unowned devices are claimed; agreement is kept |
| DeviceManager.Manager.ClaimAll | src/device_manager/device_manager.rs:219-237 | exactly the known devices are claimed, with or without a row; agreement is kept |
| DeviceManager.Manager.AcceptDelegation | src/device_manager/device_manager.rs:297-319 | exactly the devices up to a scheduling failure are claimed; agreement is kept also then |
| DeviceManager.Manager.ReleaseDevices | src/device_manager/device_manager.rs:322-327 | exactly the listed devices leave the set, and agreement is kept if and only if the table names another node for each listed device |
| DeviceManager.Manager.RedistributeFromFailed | src/device_manager/device_manager.rs:338-388 | the failed node's devices go round the ordered targets, this node adds exactly its own, agreement is kept if and only if the failed node is another one or nothing is given away, and the rows are spread as SpreadInTable says |
| DeviceManager.Manager.WriteTargets | src/device_manager/device_manager.rs:369-380 | the loop writes target i mod n for device i and adds exactly the own ones |
| DeviceManager.Manager.HandOut | src/device_manager/device_manager.rs:457-488 | the nested loops hand out the devices in order; each receiver gets what it may take while devices last |
| DeviceManager.Manager.GiveTo | src/device_manager/device_manager.rs:470-483 | the inner loop gives the next devices, as many as allowed and available, to one receiver |
| DeviceManager.Manager.RebalanceCluster | src/device_manager/device_manager.rs:395-498 | each device moves at most once, only out of the set and to receivers below average; how many move, and to whom, is determined by RebalanceOutcome and NothingToRebalance |
| DeviceManager.RebalanceNeverOvershoots | src/device_manager/device_manager.rs:408-488 | the node is not taken below its own average-load count, a receiver with a suggested maximum that gets anything ends at or below its average-load count, and nodes at or above average get nothing |
| DeviceManager.RebalanceOutcome | src/device_manager/device_manager.rs:408-488 | with keep the largest count c with 100 c <= average * max, and share the least q with q * receivers >= owned - keep: the node ends with exactly keep devices, or every receiver got the smaller of its share and its room; nobody gets more; and a receiver gets devices only when every less loaded one has its full amount |
| DeviceManager.NothingToRebalance | src/device_manager/device_manager.rs:403-441 | nothing moves without a suggested maximum, with at most keep devices, or when no node is below the average |
| DeviceManager.Operate | src/device_manager/device_manager.rs:84-498 | any sequence of registering, loading, claiming, accepting (also with failures), redistributing and rebalancing on one node keeps the owned set and the table in agreement; releasing has its own exact condition |
| Rebalance.CanTakeBounds | src/device_manager/device_manager.rs:461-468 | what a receiver may take never lifts it above its average-load count nor exceeds a share |
| Rebalance.AverageOfEqual | src/device_manager/device_manager.rs:408-409 | if all nodes, the local one included, have the same load, that is the average |
| Rebalance.AverageOfRaised | src/device_manager/device_manager.rs:408-409 | raising the load of any other node by e raises the average by e over the number of nodes |
| Rebalance.AverageOfRaisedLocal | src/device_manager/device_manager.rs:408-409 | raising the local load by e does the same |
| Rebalance.CountAtIsLargest | src/device_manager/device_manager.rs:429-431 | the count of a node at a load is the largest c with 100 c <= load * max |
| Rebalance.CanTakeIsFullAmount | src/device_manager/device_manager.rs:461-468 | what a receiver may take is the smaller of its share and its room up to its target, with the sums held in 32 bits |
| Rebalance.FullAmountMeans | src/device_manager/device_manager.rs:461-468 | without wrap-around that is a full share without a maximum, and with one exactly what lifts the receiver to its target, or a share, or nothing |
| Rebalance.ReceiversFacts | src/device_manager/device_manager.rs:411-424 | for distinct reports, the receivers are exactly the nodes below average, each once, least loaded first |
| Membership.MembershipList.AddOrUpdate | src/cluster/membership.rs:109-132 | the local node is never listed; a known peer is updated and counts as heard now |
| Membership.MembershipList.UpdateHeartbeat | src/cluster/membership.rs:135-139 | a listed peer counts as heard now, nothing else changes |
| Membership.MembershipList.MarkSuspect | src/cluster/membership.rs:142-150 | only an active peer becomes suspect |
| Membership.MembershipList.MarkDead | src/cluster/membership.rs:153-159 | a listed peer becomes dead, nothing else changes |
| Membership.MembershipList.HandleSuspect | src/cluster/failure_detector.rs:66-133 | the peer is rechecked, suspected, and revived exactly when the probe succeeds |
| Membership.MembershipList.HandleDead | src/cluster/failure_detector.rs:136-223 | a listed peer is removed, and the nodes that take over its devices are exactly the other active ones; for an unlisted peer nothing happens |
| Membership.MembershipList.DetectorPass | src/cluster/failure_detector.rs:40-62 | the two loops together judge every peer as the one-peer rule says |
| Membership.PassIsComplete | src/cluster/membership.rs:174-196 | after a pass active peers were heard within the suspect timeout, suspect ones within both |
| Membership.PassRemovesIff | src/cluster/failure_detector.rs:43-61 | a peer is removed exactly when it was active or suspect, silent beyond both timeouts, and not revived |
| Membership.PassLeaves | src/cluster/failure_detector.rs:66-133 | a kept active peer that was silent too long counts as heard now if the probe succeeded and is suspect otherwise; every other kept peer is unchanged |
| Detector.StepKeepsProgress | src/cluster/failure_detector.rs:40-223 | every step of a pass, and everything that can happen between its steps, keeps what the pass has established |
| Detector.LivePeerIsNeverRemoved | src/cluster/failure_detector.rs:40-223 | a peer heard at gaps of at most both timeouts is never removed by this node's own detector, in every interleaved run in which it is not announced as leaving or dead |
| Detector.PassLeavesOnlyFreshPeers | src/cluster/failure_detector.rs:43-61 | when an interleaved pass ends, active peers were heard from within the suspect timeout before the step at which it started, suspect ones too or within both timeouts before the step at which it collected the dead; who is removed is said by the next rows |
| Detector.SilentPeerIsRemoved | src/cluster/failure_detector.rs:40-223 | a peer that is active or suspect and silent beyond both timeouts when a pass starts, and gives no sign of life during it, is gone when the pass ends, in every interleaved run |
| Detector.RemovedPeerWasSilent | src/cluster/failure_detector.rs:54-61 | a peer the detector removes was suspect and silent beyond both timeouts when the dead were collected |
| Detector.TimeChangesOnlyBySignsOfLife | src/cluster/failure_detector.rs:111-132 | the time of a listed peer changes exactly by a message from it or a successful probe, and then to now; it is unlisted exactly by its burial or an announcement |
| Detector.StatusChangesOnlyBy | src/cluster/failure_detector.rs:66-159 | without a sign of life a status changes only from active to suspect, by an announcement or an examination after the suspect timeout, and to dead by burial |
| Detector.PassComesToItsEnd | src/cluster/failure_detector.rs:40-62 | a running pass can always make its next step, each of its steps brings it nearer to the end, and nothing else sets it back |
| WakeTimes.TimeRecomposes | src/scheduler/scheduler.rs:298-315 | hour, minute and second recompose to 86400 / total times the bucket number |
| WakeTimes.SlotsFromMidnight | src/scheduler/scheduler.rs:289-307 | bucket 0 is at midnight and each bucket is 86400 / total seconds after the one before |
| WakeTimes.SlotInDay | src/scheduler/scheduler.rs:298-315 | every bucket below the total falls inside one day |
| WakeTimes.SlotsIncreaseIff | src/scheduler/scheduler.rs:301-307 | later buckets get later times exactly when there are at most 86400 buckets |
| WakeTimes.WakeupBounds | src/scheduler/scheduler.rs:256-315 | the wake-up is at second 86400 / total * bucket of its day, strictly ahead, less than 26 hours ahead, and more than one hour ahead when it is today |
| WakeTimes.WakeupFailsIff | src/scheduler/schedule.rs:27-33 | scheduling fails exactly when the slot lies past the day, which needs a bucket number outside the current total |
| WakeTimes.CadenceIff | src/scheduler/scheduler.rs:628-647 | rescheduling gives exactly one day later if and only if it is on the same day or less than 23 clock hours later |
| WakeTimes.CadenceWithin22Hours | src/scheduler/scheduler.rs:256-287 | rescheduling within 22 hours gives exactly one day later, also across midnight |
| WakeTimes.NoDrift | src/scheduler/scheduler.rs:230-287 | with rescheduling within 22 hours the n-th wake-up is the first plus n days |
| WakeTimes.RunSession | src/scheduler/task/wake_up_device.rs:175-279 | a session completes exactly when the socket opens, all three replies arrive as expected and the closing ACK is sent; it stops at the first thing that goes wrong and waits at most 90 seconds on top of its own work |
| WakeTimes.RunWakeUp | src/scheduler/task/wake_up_device.rs:78-163 | a missing device and one without exactly one address are the two early errors; otherwise success at the first of five sessions that completes, failure if none does, and never more than 690 seconds of waiting on top of its own work |
| WakeTimes.SilentDevice | src/scheduler/task/wake_up_device.rs:108-162 | a device that never answers takes exactly five waits of 30 seconds and four pauses of 60 |
| WakeTimes.SlowestDevice | src/scheduler/task/wake_up_device.rs:108-162 | the bound of 690 seconds is attained |
| WakeTimes.Cycle | src/scheduler/task/wake_up_device.rs:78-163 | a device gets a next job exactly when a session completes and the signal gets through; that job is one day later if and only if it is created in time, for any delay; the device is told exactly one day after the moment its first complete session computed that, which is the same time if and only if no time passed before |
| Registration.StatusOnlyAdvances | src/common/database/in_memory.rs:77-94 | along every interleaved run the status only moves from pending through timed out to registered |
| Registration.RegisteredIsFinal | src/backdoor/backdoor.rs:414-482 | once registered, always registered |
| Registration.TimeoutIsLeftOnlyByEarlierRead | src/backdoor/backdoor.rs:459-470 | a timed-out registration is left only by the write of a handler that read the pending status before the timeout |
| Registration.JobsComeFromPendingReads | src/backdoor/backdoor.rs:472-476 | a job of the ACK path comes only from a handler that read the pending status |
| Registration.RegisteredIffWritten | src/backdoor/backdoor.rs:416-483 | the device is registered exactly when some handler has written, and a handler refuses exactly when it read the timeout |
| Registration.OneJobPerPendingRead | src/backdoor/backdoor.rs:441-482 | a finished handler whose scheduling did not fail created a job exactly when it read the pending status |
| Registration.HandlersAnswerRight | src/backdoor/backdoor.rs:416-483 | in every state of every run: a finished handler that read the timeout sent a NACK, one that read registered sent an ACK, neither has a job; one that read pending sent an ACK and has a job, or failed and has neither |
| Registration.RefusedAndRegistered | src/backdoor/backdoor.rs:462-470 | a run in which a second ACK is refused and the device still ends registered |

## Left out

- ClusterBuffer.ReadMessage: does not state what a failed read leaves in the buffer, except for a buffer shorter than a header and for an unknown type, because a datagram is dropped after an error.
- ClusterBuffer.ReadPayload: heartbeats, status responses and the payloads of fixed fields are read from the bytes as values; only the two delegation lists are read by a loop that changes the buffer.
- ClusterBuffer.WritePayload: fields of fixed size are appended together, not one call per field.
- Failover.FailoverMovesExactlyTheOrphans: the dead node takes no part and is not heard from again while its devices are redistributed, so no survivor lists it as a target.
- Handover.HandoverKeepsDevicesInService: setting the status and reading the devices to hand over are one step; a node that is starting or overloaded may accept here although the code rejects, which only adds runs.
- DeviceManager.Manager.AcceptDelegation: scheduling can fail, writing the owner cannot, as in the in-memory table.
- Rebalance.CanTakeBounds: loads are real numbers, without the rounding of 32-bit floating point; a 32-bit sum that overflows wraps.
- Discovery.Discover: peer lists do not change meanwhile other than by the joiner, no packet between running nodes is lost, and an address stands for the node behind it.
- ClusterExact.DecodeIffEncoded: leaves out the five types with flags, addresses or a list that may be missing, because several byte sequences decode to the same message; for them ReencodingIsStable and DecodedIsWellFormed say what holds.
- Address.ParsedIsPrinted: does not characterise the texts accepted for IPv6, which are many for one address; that they are read and survive is stated by AddrRoundTrip and ReprintingIsStable.
- Sockets, locks and sleeps: replaced by atomic steps and message sets.
- SQL other than the bucket loop: the shared table has the map semantics of the in-memory engine.
- Bodies of device messages (RLP), MAC computation and nonces: bodies are opaque bytes, MACs are numbers.
- Registration of new devices while a node drains, and the NODE_LEAVE broadcast.
- The scheduler's own set of owned devices, its short-interval mode, job execution, abort handles and the debug session.
- Scheduled-connection rows, battery intervals, the IP-update path and `get_devices_for_delegation`.
- Heartbeat gossip, which the code only logs, and the handling of configuration updates.
- The configuration store, metrics, RPC server and command-line tools: plumbing with easier properties.
