# RIPv2 router core, modelled in Dafny

This project models the routing core of a small RIPv2 software router
(RFC 2453) and proves properties of the model. The router keeps a routing
table built from its four directly connected /24 networks and from the
responses its neighbours send. It answers requests with a split-horizon
advertisement of that table, and forwards transit IPv4 packets by
longest-prefix match.

Files and modules:

- `wire.dfy` (`Wire`): bytes and words and the byte-order conventions.
  - Addresses, masks, next hops and metrics are 32-bit little-endian reads of network-order bytes, so 1.2.3.4 is `0x04030201`.
  - A /24 mask is `0x00ffffff`, and a prefix keeps the low `len` bits.
  - A metric is stored in network order, so 1 is `0x01000000`.
- `bits.dfy` (`Bits`): shifts of a 32-bit word by a variable amount, and the lemma that makes the router's prefix test readable. Two words agree once shifted left by `32 - len` exactly when they agree in their low `len` bits.
- `checksum.dfy` (`Checksum`): the IPv4 header checksum (section 3.1 of RFC 791, computed as in RFC 1071) and `validateIPChecksum`.
- `forwarding.dfy` (`Forwarding`): `checkSum`, and `forward`, which decrements the TTL and rewrites the checksum in place.
- `protocol.dfy` (`Protocol`): the RIPv2 message format of section 4 of RFC 2453.
  - `Disassemble` is a byte-cursor parse with all-or-nothing validation.
  - `Assemble` serialises into a caller's buffer.
  - The two are related by a round trip.
- `lookup.dfy` (`Lookup`): the routing table.
  - The source keeps it as a global singly linked list. Here it is a class holding a head-first `seq` of entries.
  - `Insert`, `Delete`, `Query` (longest prefix match, ties to the head) and `GenRipPack` (split horizon).
- `router.dfy` (`Router`): the parts of the main program that make routing decisions.
  - `change_endian` and `mask2len`.
  - Bootstrap of the direct routes.
  - The loop that turns a response into table updates.
  - Periodic and requested advertisements.
  - The destination test and the next-hop choice for transit packets.
  - Dispatch of a received packet.

Each imperative routine of the source is a method that does what the routine
does, step by step, with three exceptions where the routine as written is
wrong (see "## Findings"). `Bootstrap` installs metric 1 instead of 0,
`BuildCandidate` (and so `ProcessResponse`) keeps the low `len` bits of a
learnt address instead of shifting them away, and `Receive` dispatches
transit packets to forwarding. Beside each of these, the form as written is
kept as a function, with a lemma that shows what goes wrong. Each method is proved against a specification function,
and the lemmas are proved about those functions. For example:

- `Query` is proved against `IsBest`.
- `Insert` and `Delete` are proved against `Inserted` and `Deleted`.
- The response loop is proved against `Responded`, a fold of `Applied` over the routes built from a response.

Most undefined behaviour in the source becomes a precondition. This covers:

- a shift by 32 when advertising a route of length 0, or when cutting a learnt /32 address as written;
- a cursor that would leave the buffer;
- more than 25 entries written into a `RipPacket`;
- a delete from an empty list.

Two cases are modelled differently; "## Left out" names them: the shift by
32 of a query against a length-0 route, and the signed overflow of
`byte * 0x1000000`.

## Model

| member | source | states |
|---|---|---|
| `Bits.ShiftedEqualIsMaskedEqual` | Homework/lookup/lookup.cpp:119 | two words are equal after a left shift by `s` exactly when they agree in the bits of `0xffffffff >> s`, so the query's shift test compares the low `32 - s` bits |
| `Bits.OnesShiftedIsLowMask` | Homework/lookup/lookup.cpp:144 | `0xffffffff >> s` is a mask of the form 2^k - 1 |
| `Checksum.Fold` | Homework/checksum/checksum.cpp:31-33 | the carry-folding loop ends with a sum of at most 0xffff, and a sum that already fits is left as it is |
| `Checksum.FoldCongruent` | Homework/checksum/checksum.cpp:31-33 | folding keeps the value of the sum modulo 0xffff |
| `Checksum.ToWord16Value` | Homework/checksum/checksum.cpp:35 | the conversion of a folded sum to a 16-bit word keeps its value |
| `Checksum.ChecksumFrame` | Homework/checksum/checksum.cpp:16-24 | the checksum depends only on the IHL nibble and on header bytes other than 10 and 11; bytes past IHL·4 are never read |
| `Checksum.ChecksumIgnoresStoredField` | Homework/forwarding/forwarding.cpp:20-26 | overwriting bytes 10-11 does not change the computed checksum |
| `Checksum.SumHeaderWords` | Homework/checksum/checksum.cpp:13-28 | the loop adds every 16-bit little-endian header word except word 5; the odd-byte branch is unreachable because IHL·4 is even |
| `Checksum.FoldAndComplement` | Homework/checksum/checksum.cpp:31-35 | the fold loop and the complement give `0xffff - fold(sum)` |
| `Checksum.ValidateIPChecksum` | Homework/checksum/checksum.cpp:11-38 | returns true exactly when the computed checksum equals the little-endian word at bytes 10-11; the packet is not modified and `len` is not used |
| `Checksum.ValidHeaderSumsToOnes` | Homework/checksum/checksum.cpp:13-37 | a header that validates has all its words, the checksum word included, summing to 0xffff in one's complement (the receiver's check of RFC 1071) |
| `Checksum.OnesSumValidates` | Homework/checksum/checksum.cpp:13-37 | conversely, such a header validates, except when it stores 0xffff where the computed checksum is 0 |
| `Forwarding.CheckSum` | Homework/forwarding/forwarding.cpp:14-39 | returns the same checksum `validateIPChecksum` computes, without modifying the packet |
| `Forwarding.Restamped` | Homework/forwarding/forwarding.cpp:47-50 | restamping changes only byte 8 (the TTL) and bytes 10-11 |
| `Forwarding.RestampedValidates` | Homework/forwarding/forwarding.cpp:47-50 | after the restamp the stored checksum equals the checksum of the header with its new TTL, so the header validates |
| `Forwarding.Restamp` | Homework/forwarding/forwarding.cpp:47-50 | the TTL is decremented modulo 256 and the new checksum is stored low byte at 10, high byte at 11 |
| `Forwarding.Forward` | Homework/forwarding/forwarding.cpp:41-55 | returns true exactly when the stored checksum is right; on false the packet is unchanged; on true it is restamped and validates again |
| `Protocol.Disassembled` | Homework/protocol/protocol.cpp:50-53 | a packet whose Total Length exceeds `len` is rejected; an accepted packet has one entry per 20-byte stride up to `len` |
| `Protocol.Disassemble` | Homework/protocol/protocol.cpp:47-109 | the byte-cursor parse succeeds exactly when the specification accepts, and then returns its command and entries |
| `Protocol.ReadEntry` | Homework/protocol/protocol.cpp:67-103 | one pass of the entry loop: the checks pass exactly when the entry is accepted, and the entry read is its four little-endian words |
| `Protocol.EntryFields` | Homework/protocol/protocol.cpp:67-79 | family and tag are big-endian reads, the metric is checked as a big-endian read, and the stored fields are little-endian reads |
| `Protocol.AcceptedByChecks` | Homework/protocol/protocol.cpp:82-97 | an entry that passes the zero/version/tag, family/command, metric range and mask-shape checks is accepted |
| `Protocol.RejectedByChecks` | Homework/protocol/protocol.cpp:82-97 | an entry that fails any one of those checks is not accepted |
| `Protocol.RejectedEntryRejectsPacket` | Homework/protocol/protocol.cpp:66-97 | one rejected entry rejects the whole packet |
| `Protocol.DisassembledValid` | Homework/protocol/protocol.cpp:82-108 | every accepted packet is valid: command 1 or 2 when it has entries, every metric 1 to 16 after byte swapping, every mask 2^k - 1 |
| `Protocol.EmptyMessageAccepted` | Homework/protocol/protocol.cpp:61-66 | a packet with no entries is accepted whatever its command, version or zero field, with zero entries |
| `Protocol.Assembled` | Homework/protocol/protocol.cpp:123-159 | assemble writes only the first `4 + 20n` bytes and leaves each entry's first family byte as it was |
| `Protocol.StoreWord` | Homework/protocol/protocol.cpp:134-137 | a word is written low byte first and nothing else changes |
| `Protocol.StoreEntry` | Homework/protocol/protocol.cpp:129-155 | one entry is written as family byte, tag, address, mask, next hop and metric; the first family byte is not written |
| `Protocol.Assemble` | Homework/protocol/protocol.cpp:121-161 | returns `4 + 20·numEntries` and leaves the buffer as `Assembled` describes |
| `Protocol.AssembledIsEncoded` | Homework/protocol/protocol.cpp:129-130 | when the family bytes it does not write are 0, assemble's output is the full encoding |
| `Protocol.AssembledRoundTrip` | Homework/protocol/protocol.cpp:47-160 | behind an IPv4 header and 8 UDP bytes, disassembling what assemble wrote gives back a valid message, provided the unwritten family bytes were 0 |
| `Protocol.StaleFamilyByteRejected` | Homework/protocol/protocol.cpp:129-130 | a non-zero byte left in a family field makes disassemble reject assemble's output |
| `Protocol.EncodedRoundTrip` | Homework/protocol/protocol.cpp:47-160 | disassembling the full encoding of a valid message gives the message back |
| `Lookup.PrefixMatchIsLowBits` | Homework/lookup/lookup.cpp:119 | the shift test holds exactly when address and prefix agree in their low `len` bits |
| `Lookup.ScanIsBest` | Homework/lookup/lookup.cpp:115-129 | the query scan finds a route exactly when some entry matches, and then answers with the first of the longest matches |
| `Lookup.BestIsUnique` | Homework/lookup/lookup.cpp:120 | the answer to a query is unique |
| `Lookup.FirstReplaceable` | Homework/lookup/lookup.cpp:58-71 | the walk stops at the first entry with the same key and a strictly larger metric, or finds none |
| `Lookup.Inserted` | Homework/lookup/lookup.cpp:40-82 | an insert that reports a change leaves the entry in the table; one that reports no change leaves the table as it was |
| `Lookup.InsertedFrom` | Homework/lookup/lookup.cpp:40-82 | after an insert every entry is the new one or was there before |
| `Lookup.InsertedKeepsUniqueKeys` | Homework/lookup/lookup.cpp:58-81 | insert never creates two entries with the same address and length |
| `Lookup.NoReplaceWhenNotBetter` | Homework/lookup/lookup.cpp:60 | an entry whose stored metric is equal or smaller is not replaced, and the insert reports no change |
| `Lookup.ReplaceWhenBetter` | Homework/lookup/lookup.cpp:60-66 | an entry with the same key and a strictly larger metric is overwritten in place, and nothing else changes |
| `Lookup.InsertedIsCovered` | Homework/lookup/lookup.cpp:54-77 | after an insert that reports a change, a query for the entry's address finds a route |
| `Lookup.Deleted` | Homework/lookup/lookup.cpp:83-102 | delete removes one entry when some entry has the key and none otherwise, and adds nothing |
| `Lookup.DeletedRemovesKey` | Homework/lookup/lookup.cpp:85-101 | with unique keys, no entry with the deleted key remains |
| `Lookup.DeletedKeepsUniqueKeys` | Homework/lookup/lookup.cpp:83-102 | delete keeps keys unique |
| `Lookup.Advertised` | Homework/lookup/lookup.cpp:135-152 | the advertisement has at most one entry per route |
| `Lookup.AdvertisedIsSplitHorizon` | Homework/lookup/lookup.cpp:139-148 | an entry is advertised on an interface exactly when it advertises a route not learnt on that interface |
| `Lookup.LenMaskIsPrefix` | Homework/lookup/lookup.cpp:144 | the advertised mask `0xffffffff >> (32 - len)` has the shape disassemble accepts |
| `Lookup.RoutingTable.constructor` | Homework/lookup/lookup.cpp:37 | the table starts empty |
| `Lookup.RoutingTable.Query` | Homework/lookup/lookup.cpp:113-130 | returns true exactly when some entry covers the address; then outputs the next hop and interface of the first longest match; otherwise leaves the outputs alone |
| `Lookup.RoutingTable.Insert` | Homework/lookup/lookup.cpp:42-82 | the list walk gives the table and result of `Inserted` |
| `Lookup.RoutingTable.Delete` | Homework/lookup/lookup.cpp:83-103 | the unlink gives the table of `Deleted` |
| `Lookup.RoutingTable.GenRipPack` | Homework/lookup/lookup.cpp:135-152 | command 0 and the split-horizon advertisement, in list order |
| `Router.ChangeEndianIsByteSwap` | Homework/boilerplate/main.cpp:21-23 | `change_endian`'s arithmetic reverses the four bytes of a word |
| `Router.ChangeEndianInvolution` | Homework/boilerplate/main.cpp:21-23 | applying `change_endian` twice gives the word back |
| `Router.Mask2LenFrom` | Homework/boilerplate/main.cpp:26-31 | the search returns the index of the lowest set bit of `mask + 1` at or after `i`, or 32 when there is none |
| `Router.Mask2LenOfLenMask` | Homework/boilerplate/main.cpp:25-32 | `mask2len(2^k - 1) == k` for every k from 0 to 32, including `0xffffffff`, where `mask + 1` wraps to 0 |
| `Router.BootstrapTable` | Homework/boilerplate/main.cpp:55-65 | after bootstrap, with the metric corrected to 1 (see Findings), the table holds the direct route of every interface, the last one inserted at the head |
| `Router.BootstrapStep` | Homework/boilerplate/main.cpp:64 | each bootstrap insert prepends its route and reports a change |
| `Router.Bootstrap` | Homework/boilerplate/main.cpp:55-65 | the bootstrap loop, with the metric corrected to 1 (see Findings), leaves exactly the four direct routes in the table |
| `Router.DirectRouteMatchesIff` | Homework/boilerplate/main.cpp:57-58 | an interface's direct route matches exactly the addresses on that interface's /24 network |
| `Router.DirectRoutesDisjoint` | Homework/boilerplate/main.cpp:41 | no address matches the direct routes of two interfaces |
| `Router.BootstrapRoutesOwnNetworks` | Homework/boilerplate/main.cpp:55-65 | after bootstrap, a query for an address on an interface's network answers with that interface's direct route |
| `Router.BootstrapTableIsSound` | Homework/boilerplate/main.cpp:55-65 | the bootstrapped table has unique keys and every metric between 1 and 16 |
| `Router.DirectRouteAsWrittenRejected` | Homework/boilerplate/main.cpp:61 | a direct route as written, with metric 0, is advertised as an entry that disassemble rejects |
| `Router.BootstrapAsWrittenAdvertisementRejected` | Homework/boilerplate/main.cpp:55-65 | the table bootstrap builds as written, advertised on any interface, is a message that no parse of any packet returns |
| `Router.DirectRouteAcceptable` | Homework/boilerplate/main.cpp:55-65 | a direct route with metric 1 is advertised as an entry that disassemble accepts |
| `Router.CandidateMetricCounts` | Homework/boilerplate/main.cpp:260 | for an entry learnt through a next hop, the stored metric is the advertised metric plus one, in network order |
| `Router.WithdrawnMetricIs17` | Homework/boilerplate/main.cpp:267 | `0x11000000` is exactly metric 17 in network order |
| `Router.CandidateWithdrawsIff` | Homework/boilerplate/main.cpp:260-268 | a route is withdrawn exactly when it was advertised through a next hop with metric 16 |
| `Router.CandidateMetricInRange` | Homework/boilerplate/main.cpp:260-266 | every route that is not withdrawn gets a metric of 1 to 16 |
| `Router.CandidateLength` | Homework/boilerplate/main.cpp:257 | a route advertised with mask `2^len - 1` is learnt with length `len` |
| `Router.CandidateIsAdvertisedPrefix` | Homework/boilerplate/main.cpp:263 | the learnt address keeps only its low `len` bits and is a prefix of the advertised address |
| `Router.CandidateAsWrittenMovesNetwork` | Homework/boilerplate/main.cpp:263 | as written, 10.0.1.0/24 is learnt as 10.0.0.0/24, which does not cover the advertised network; the corrected route is 10.0.1.0/24 |
| `Router.Candidates` | Homework/boilerplate/main.cpp:253-262 | the response loop builds one route per entry, in order |
| `Router.Applied` | Homework/boilerplate/main.cpp:267-274 | one step deletes a withdrawn route or inserts any other; every resulting entry is the new route or was there before, and a withdrawal only removes |
| `Router.ComputeMetric` | Homework/boilerplate/main.cpp:260-266 | the metric statements give the advertised metric plus one, or 1 for a direct advertisement |
| `Router.BuildCandidate` | Homework/boilerplate/main.cpp:255-266 | the statements that build a route, with the address cut of line 263 corrected (see Findings), give `Candidate`: the length from the mask, the metric of `CandidateMetric`, the arrival interface, the sender and the time |
| `Router.ApplyCandidate` | Homework/boilerplate/main.cpp:267-274 | the branch on the withdrawal metric calls delete or insert as `Applied` says |
| `Router.ProcessResponse` | Homework/boilerplate/main.cpp:252-280 | the response loop, learning the corrected candidates (see Findings), leaves the table and `has_updated` as the fold `Responded` says |
| `Router.AppliedKeepsUniqueKeys` | Homework/boilerplate/main.cpp:267-274 | one step of the response loop keeps keys unique |
| `Router.RespondedKeepsUniqueKeys` | Homework/boilerplate/main.cpp:252-280 | processing a response keeps keys unique |
| `Router.AppliedKeepsMetricsInRange` | Homework/boilerplate/main.cpp:267-274 | one step keeps every stored metric between 1 and 16 |
| `Router.RespondedKeepsMetricsInRange` | Homework/boilerplate/main.cpp:252-280 | processing routes with metrics in range keeps every stored metric between 1 and 16 |
| `Router.CandidatesInRange` | Homework/boilerplate/main.cpp:253-266 | every route built from an accepted response is withdrawn or has a metric of 1 to 16 |
| `Router.ResponseKeepsTableSound` | Homework/boilerplate/main.cpp:252-280 | an accepted response keeps the table's keys unique and its metrics between 1 and 16 |
| `Router.NoUpdateLeavesTable` | Homework/boilerplate/main.cpp:252-277 | without withdrawals, a response that leaves `has_updated` false leaves the table unchanged |
| `Router.LearntNetworkIsRouted` | Homework/boilerplate/main.cpp:263-273 | for the corrected route (line 263 as written breaks it, see Findings): when inserting a learnt route reports a change, the advertised address is covered by the table |
| `Router.AdvertisementValid` | Homework/lookup/lookup.cpp:135-152 | a table with metrics in range advertises a response that disassemble accepts |
| `Router.AdvertisedRouteLearnt` | Homework/boilerplate/main.cpp:255-263 | for the corrected route (line 263 as written breaks it, see Findings): a neighbour learns an advertised route with the same address and length |
| `Router.RespondToRequest` | Homework/boilerplate/main.cpp:193-196 | the reply to a request is the arrival interface's advertisement with command 2 |
| `Router.PeriodicUpdate` | Homework/boilerplate/main.cpp:74-78 | the periodic update is each interface's advertisement with command 2 |
| `Router.AddressAtIsLoad32LE` | Homework/boilerplate/main.cpp:170-171 | the arithmetic read of the source and destination addresses is the little-endian read |
| `Router.IsForMe` | Homework/boilerplate/main.cpp:173-183 | a packet is for the router exactly when its destination is an interface address or 224.0.0.9 |
| `Router.ForwardNextHop` | Homework/boilerplate/main.cpp:286-293 | a route is found exactly when the table covers the destination; the next hop is the best route's, or the destination itself on a direct route |
| `Router.BootstrapDeliversDirectly` | Homework/boilerplate/main.cpp:286-293 | after bootstrap, a packet for a host on an interface's network leaves through that interface to the host itself |
| `Router.DispatchAsWrittenMisroutes` | Homework/boilerplate/main.cpp:187-287 | as written, a packet for another host is dropped, and a packet for the router that is not valid RIP is forwarded |
| `Router.DispatchForwardsTransit` | Homework/boilerplate/main.cpp:186-191 | corrected, a packet is forwarded exactly when it is not for the router; a request for the router is answered; other RIP for the router is learnt from |
| `Router.Receive` | Homework/boilerplate/main.cpp:167-311 | one received packet is dispatched as `Dispatch` says, and only a packet for the router is parsed; then it is answered, learnt from (as `Responded`), or routed (as `RoutedVia`), and the table changes only when learning |

## Left out

- Hardware and OS calls are not modelled: initialisation, the clock, packet send and receive, and ARP resolution (main.cpp:44, 69, 137, 149, 248, 294, 300). `Receive` returns the reply or the route instead of sending it. The time is a parameter.
- The 5-second timer and the receive-or-timeout scheduling of the main loop are not modelled (main.cpp:67-70, 142-161). `PeriodicUpdate` models one round of updates.
- The IP and UDP header bytes written around each send are not modelled (main.cpp:82-128, 200-246). Two oddities there:
  - the checksum is stored high byte first (127-128, 245-246), unlike `forward`, which stores it low byte first;
  - the source address bytes are written in reverse order (94-97, 212-215).
- `printTable` is stdout formatting and is not modelled (lookup.cpp:154-167). Its loop never advances.
- Memory management is not modelled: allocation, the node leaked when nothing is inserted, and the uninitialised pointers passed to `query` inside `update` (lookup.cpp:72-73). Only that query's result is used.
- Undefined behaviour is a precondition:
  - a shift by 32 for a length of 0 when advertising (lookup.cpp:144), or for a length of 32 in the address cut as written (main.cpp:263);
  - a trailing partial entry (protocol.cpp:66);
  - more than 25 entries (protocol.cpp:99, lookup.cpp:142);
  - a delete from an empty table (lookup.cpp:85).
- `Lookup.RoutingTable.Query`: the shift by 32 that lookup.cpp:119 performs for a length-0 route is undefined in C, and it is not a precondition. Such a route does enter the table, from an advertisement with mask 0. The model gives the shift its mathematical result, 0; whatever the result, the strict `len > best` test starting from 0 never selects a length-0 route, and `Matches` says so directly.
- `Router.AddressAtIsLoad32LE` and `Protocol.ReadEntry`: `byte * 0x1000000` is signed `int` arithmetic in C and overflows, which is undefined, whenever the byte is 0x80 or more. This happens for a destination address x.x.x.128 or above (main.cpp:170-171) and for the address, mask, next hop and metric words of an entry (protocol.cpp:72-78), for instance any mask of /25 or longer. The model gives these reads the 32-bit wrap-around result, not a precondition.
- The delete path of `update` returns no value; `Delete` has no result.
- `Bits.ShiftLeft` and `Bits.ShiftRight` define a shift by `s` as `s` one-bit shifts. No lemma ties them to the single C shift operator they stand for.
- `Router.Bootstrap`: installs direct routes with metric 1, not the 0 of main.cpp:61 (see Findings). `Router.DirectRouteAsWritten` and `Router.BootstrapTableAsWritten` keep the written form.
- `Router.BootstrapTable`: is the table of the corrected bootstrap, with metric 1 on every direct route, not the metric-0 table of main.cpp:61.
- `Router.BuildCandidate`: computes `e.addr & LenMask(len)` in place of main.cpp:263's `(addr << len) >> len` (see Findings). `Router.CandidateAsWritten` keeps the written form.
- `Router.ProcessResponse`: learns the routes `BuildCandidate` builds, so it runs the corrected address cut, not main.cpp:263 as written.
- `Router.Candidate`: keeps the low `len` bits of the advertised address, not the `(addr << len) >> len` of main.cpp:263 (see Findings). `Router.CandidateAsWritten` keeps the written form.
- `Router.Receive`: uses the corrected `Dispatch`, not the branch structure of main.cpp:187-311 (see Findings). `Router.DispatchAsWritten` keeps the written form. As in the source, only a packet for the router is parsed.
- Where the code departs from RFC 2453, the model follows the code:
  - Metric 16 is infinity (section 3.9.2 of RFC 2453), but this code stores an advertised 15 as 16 and withdraws a route only when its incremented metric is 17, that is when it was advertised with 16.
  - A route advertised with next hop 0 is stored with metric 1, whatever its advertised metric.
  - There are no timeout or garbage-collection timers (section 3.8 of RFC 2453), so routes never age.
  - A route with a new address and length is dropped, and `update` reports no change, whenever some route in the table already covers its address, even a shorter one (lookup.cpp:72-80, modelled by `Lookup.Inserted`). Section 3.9.2 of RFC 2453 adds every new reachable destination.

## Findings

| source | as written | input that shows it | evidently intended | confidence | as-written member | corrected member |
|---|---|---|---|---|---|---|
| Homework/boilerplate/main.cpp:282-311 | the forward branch is the `else` of the `disassemble` test inside `if (dst_is_me)` | a transit packet (destination not the router) is dropped; a non-RIP packet for the router is forwarded | forward packets that are not for the router, as the 3a/3b branch comments say | not executed | `Router.DispatchAsWrittenMisroutes` | `Router.DispatchForwardsTransit` |
| Homework/boilerplate/main.cpp:263 | the learnt address is `(addr << len) >> len`, which clears the top `len` bits | 10.0.1.0/24 (`0x0001000a`, mask `0x00ffffff`) is stored as `0x0000000a`, which is 10.0.0.0/24 | keep the low `len` bits, the convention of lookup.cpp:18 | not executed | `Router.CandidateAsWrittenMovesNetwork` | `Router.CandidateIsAdvertisedPrefix` |
| Homework/protocol/protocol.cpp:129-130 | only the second byte of each entry's family field is written; main assembles into `output[28..]`, which main.cpp:296 overwrites with every forwarded packet, so after forwarding a packet longer than 32 bytes the next advertisement carries that packet's byte 32 as its first family byte | a buffer whose byte at an entry's family offset is non-zero, as `output` is after forwarding such a packet | write both family bytes, so the output is a valid message | not executed | `Protocol.StaleFamilyByteRejected` | `Protocol.EncodedRoundTrip` |
| Homework/boilerplate/main.cpp:61 | direct routes get metric 0 and are advertised with it | the bootstrapped table advertised on any interface carries the direct routes of the other interfaces with metric 0, and disassemble rejects the whole message | a metric in the range 1 to 16 that RIP advertisements carry | not executed | `Router.BootstrapAsWrittenAdvertisementRejected` | `Router.BootstrapTableIsSound` |
