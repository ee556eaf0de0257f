# The packet engine of the VPN, modelled and proved

The engine under `rust/vnt-fork/vnt` carries IP packets between the peers of a virtual network. This
project models its hardest parts in Dafny and proves what they promise:

- **Routes** (`RouteLists`, `RouteTables`): the table from peers to routes, updated in place under a
  read-write lock, in the latency-first and the hop-count-first mode, over every run of interleaved
  operations.
- **Stopping** (`StopProtocol`, `StopWakeup`, `StopCallback`, `StopManager`): the manager that stops the
  engine, as a protocol of atomic steps between any number of threads, and as a sequential class.
- **Checksums** (`Checksum`): the Internet checksum of section 4.1 of RFC 1071 with its 32-bit
  arithmetic, and the ICMP, UDP and TCP packets that store it.
- **The packet pipeline** (`Packets`, `NetPackets`, `Ciphers`, `CipherMethods`, `WireFormats`, `Compression`,
  `Relays`, `Pipeline`, `Senders`): addressing, compression, eight cipher modes, relaying, and back. Block, stream and
  authenticated ciphers, hash and compressors are any functions that satisfy their laws.
- **The scheduler** (`SchedulerProtocol`, `Schedulers`): delayed tasks, a bounded channel and shutdown,
  as a protocol of steps and as the sequential loop.
- **Lookups and loops** (`ExternalRoutes`, `Punching`, `TcpFraming`, `AddressChoice`): routes to
  networks behind a peer, the sweep over all ports of a peer behind a symmetric NAT, framing on TCP, and
  the rotation of server addresses. `Bits` and `StableSorts` serve them.

`Net` and `Wrappers` hold the shared value types. Operations that change state in the source are
methods on classes or arrays, each proved equal to a function of the old state; the lemmas are about
these functions. `dafny verify dfyconfig.toml` checks everything.

## What the code does not keep

Some promises hold only under a condition; the lemmas give it exactly, with an example where one helps.

- In latency-first mode an update answers true although the route may just have been truncated away
  (`TruePresentExactly`, `UpdatedYetDropped`).
- A worker that registers after the count has reached zero can strand a waiter
  (`UnsafeCountStrands`, `LateRegistrationStrands`).
- The 32-bit sum of a checksum loses carries beyond 131074 bytes, or 131061 with the pseudo header
  (`WrappedSumIsRight`, `LengthLimit`, `LengthLimitIpv4`, `OverflowLosesACarry`).
- AES-CBC without finger encrypts payloads whose padding exceeds 65495 bytes, which its own decryption
  refuses (`Ciphers.RoundTrip`, `RefusesItsOwn`).
- The head of a sender's buffer must start with its flags clear, since setting the version keeps them
  (`Pipeline.EndToEnd`, `FlaggedPacketIsLost`). A packet sent over WireGuard leaves its mark there, so that
  the callers have to clear the head, as they do (`StaleMarkStopsRelays`, `ReadyOnceCleared`).
- AES-ECB marks a packet as encrypted before it finds that the finger has no room, and fails with the mark
  set (`CipherMethods.EncryptEcb`).
- A list of networks with a shorter prefix before a longer one of the same destination hides the longer
  one (`LongestExactly`, `TenNetHides`).
- The framing writer takes packets up to 16777215 bytes, the reader only 12 to 65536
  (`DeliversReadable`, `TooLongForReader`, `OneByteTooMany`).
- One address that never connects stops the rotation of the others for good (`OneRoundOnly`).
- A comment in the scheduler says that the number of tasks must stay below the length of the channel;
  that is exactly right (`RefusalExactly`).

## Model

| member | source | states |
|---|---|---|
| RouteLists.TruncateShape | rust/vnt-fork/vnt/src/channel/context.rs:449-470 | a list that is too long keeps its first places as they were; the last one goes to the next route, or, latency first, to the first peer-to-peer route if none is among those kept |
| RouteLists.TruncateKeepsTheBest | rust/vnt-fork/vnt/src/channel/context.rs:449-470 | latency first: the fastest peer-to-peer route survives if there was any, and next to it the fastest routes do; otherwise the fastest routes survive |
| RouteLists.AddKeepsInvariant | rust/vnt-fork/vnt/src/channel/context.rs:391-447 | whatever branch an add takes, the list stays non-empty, within its length limit, free of duplicate keys, sorted but for the last entry and, in peer-to-peer mode, all direct |
| RouteLists.RetainKeepsInvariant | rust/vnt-fork/vnt/src/channel/context.rs:551-559 | removing entries keeps all of that, unless it leaves nothing |
| RouteLists.ShorterRefuses | rust/vnt-fork/vnt/src/channel/context.rs:399-403 | hop counts first: a shorter route held before the key is found refuses an add and leaves the list |
| RouteLists.NewInHops | rust/vnt-fork/vnt/src/channel/context.rs:431-447 | hop counts first: a new direct route makes all relayed ones go, any other new one none; it is taken, and goes to the end, exactly if fewer than the number of channels are left, and nothing else is in the list afterwards |
| RouteLists.KnownStays | rust/vnt-fork/vnt/src/channel/context.rs:404-407 | both modes: an add-if-absent answers true for a known route and leaves the list |
| RouteLists.KnownUpdated | rust/vnt-fork/vnt/src/channel/context.rs:408-430 | both modes: any other add of a known route answers true, puts the new measurement in its place and sorts; hop counts first all routes stay, latency first those that outlive the truncation once every one is measured |
| RouteLists.NewInLatency | rust/vnt-fork/vnt/src/channel/context.rs:441-447 | latency first: a new route goes to the end, behind those of the others that outlive a truncation to twice the number of channels, which are sorted |
| RouteLists.AddNeverWorsens | rust/vnt-fork/vnt/src/channel/context.rs:394-447 | hop counts first: every hop count held before an add is matched or beaten after it |
| RouteLists.AddTrueMeansPresent | rust/vnt-fork/vnt/src/channel/context.rs:394-447 | hop counts first: an add that answers true has the route in the list afterwards |
| RouteLists.TruncateKeepsExactly | rust/vnt-fork/vnt/src/channel/context.rs:449-470 | latency first: which entry survives sorting and truncating, by its position among the faster ones and the direct ones |
| RouteLists.UpdateTruePresentExactly | rust/vnt-fork/vnt/src/channel/context.rs:415-430 | latency first: an update answers true, and the route is present afterwards exactly if some route is unmeasured or the updated one outlives the truncation |
| RouteLists.TruePresentExactly | rust/vnt-fork/vnt/src/channel/context.rs:391-447 | both modes, every add: one that answers true has the route in the list afterwards, except exactly if latency comes first, it updates a known route, and that route does not outlive the truncation; latency first every add answers true |
| RouteLists.UpdatedYetDropped | rust/vnt-fork/vnt/src/channel/context.rs:415-430 | a list of five routes for which an update answers true although the route is gone |
| RouteTables.RouteTable.CheckAbsent | rust/vnt-fork/vnt/src/channel/context.rs:377-393 | the read-locked look: known route, full of direct routes, or go on to write |
| RouteTables.RouteTable.Truncate | rust/vnt-fork/vnt/src/channel/context.rs:449-470 | the in-place cut computes the truncation the lemmas are about |
| RouteTables.RouteTable.AddToList | rust/vnt-fork/vnt/src/channel/context.rs:394-447 | the loops over the borrowed list compute the new list and the answer of an add |
| RouteTables.RouteTable.AddLocked | rust/vnt-fork/vnt/src/channel/context.rs:391-447 | the write-locked half replaces the list of one peer, leaves all others, and keeps the invariant of the table |
| RouteTables.RouteTable.AddRoute | rust/vnt-fork/vnt/src/channel/context.rs:363-376 | refuses relayed routes in peer-to-peer mode, otherwise adds under the write lock |
| RouteTables.RouteTable.AddRouteIfAbsent | rust/vnt-fork/vnt/src/channel/context.rs:360-393 | check and write together when nobody interferes |
| RouteTables.RouteTable.RemoveRoute | rust/vnt-fork/vnt/src/channel/context.rs:551-559 | removes one key, and the peer with its last route |
| RouteTables.RouteTable.UpdateReadTime | rust/vnt-fork/vnt/src/channel/context.rs:561-570 | touches the read time of the first route with the key and nothing else |
| RouteTables.AddedTable | rust/vnt-fork/vnt/src/channel/context.rs:391-447 | an add changes the list of its peer alone, to the outcome of the add for the list held before, or for none |
| RouteTables.RemovedTable | rust/vnt-fork/vnt/src/channel/context.rs:551-559 | a removal leaves exactly the routes with other keys, the peer exactly if there are any, and all other peers |
| RouteTables.TouchedTable | rust/vnt-fork/vnt/src/channel/context.rs:561-570 | a touch sets the read time of the first route with the key and changes nothing else in the table |
| RouteTables.CheckedExactly | rust/vnt-fork/vnt/src/channel/context.rs:377-389 | the look answers true exactly for a known key, and false exactly if hop counts come first, the key is new, and there are as many direct routes as channels |
| RouteTables.CheckThenWrite | rust/vnt-fork/vnt/src/channel/context.rs:377-391 | a write without a check that called for it changes nothing; with one it adds |
| RouteTables.RouteTable.RouteOne | rust/vnt-fork/vnt/src/channel/context.rs:478-484 | the first route of the peer, no slower than any but the last one |
| RouteTables.RouteTable.GetRouteById | rust/vnt-fork/vnt/src/channel/context.rs:336-359 | latency first: the first route; otherwise the route at the index unless unmeasured, then the first measured one, and none exactly if none is measured |
| RouteTables.NextKeepsInvariant | rust/vnt-fork/vnt/src/channel/context.rs:366-470 | every operation keeps the invariant of the whole table, also a write whose check is out of date |
| RouteTables.EveryReachableTable | rust/vnt-fork/vnt/src/channel/context.rs:366-570 | every table that any run of interleaved operations reaches satisfies it |
| RouteTables.BestHopCountNeverWorsens | rust/vnt-fork/vnt/src/channel/context.rs:394-447 | hop counts first: over any run without removals for a peer its best hop count gets no worse |
| StopManager.StopManagerInner.AddListener | rust/vnt-fork/vnt/src/util/notify.rs:65-83 | refuses the empty name, a stopped manager and a known name, in that order and with the error for each, else registers the listener and counts the worker |
| StopManager.StopManagerInner.Stop | rust/vnt-fork/vnt/src/util/notify.rs:84-91 | closes the list and runs every pending listener once, in order |
| StopManager.StopManagerInner.CallStop | rust/vnt-fork/vnt/src/util/notify.rs:120-125 | stops and makes the callback, once only |
| StopManager.StopManagerInner.Release | rust/vnt-fork/vnt/src/util/notify.rs:138-160 | runs the own listener if it is pending; the last release wakes every parked thread and stops the rest |
| StopProtocol.ReleaseRunsOwn | rust/vnt-fork/vnt/src/util/notify.rs:138-151 | what a release finds under its name is its own listener: nobody else's can have taken the name; it runs and goes, unless the list was closed |
| StopProtocol.PushExactly | rust/vnt-fork/vnt/src/util/notify.rs:65-83 | a registration is refused exactly if its name is empty or pending, or the list is closed; otherwise it is appended |
| StopProtocol.WaitEndsAtZero | rust/vnt-fork/vnt/src/util/notify.rs:95-107 | a thread leaves `wait` exactly by seeing a count of zero, and looks again after every wake-up |
| StopProtocol.StopEmptiesTheList | rust/vnt-fork/vnt/src/util/notify.rs:84-91 | a call that stops the manager comes back only when the list is closed and empty |
| StopProtocol.TimedWaitLooks | rust/vnt-fork/vnt/src/util/notify.rs:108-118 | a timed wait parks only if it sees a count that is not zero |
| StopProtocol.InvStep | rust/vnt-fork/vnt/src/util/notify.rs:65-160 | every atomic step of every thread keeps the invariant of the protocol |
| StopProtocol.EveryRunConserves | rust/vnt-fork/vnt/src/util/notify.rs:65-160 | in every interleaving each listener has run exactly once or is pending, pending names are distinct, the count is workers created less released, and the callback ran at most once, after the count hit zero, with the list empty and closed |
| StopProtocol.ClosedForGood | rust/vnt-fork/vnt/src/util/notify.rs:69-91 | a closed list never opens or grows again |
| StopWakeup.WakeStep | rust/vnt-fork/vnt/src/util/notify.rs:95-107 | every step keeps what waiters rely on, if a worker is only counted at a safe moment |
| StopWakeup.SafeRunStrandsNobody | rust/vnt-fork/vnt/src/util/notify.rs:95-107 | runs that count workers at safe moments never leave a waiter without wake-up |
| StopWakeup.NoLostWakeup | rust/vnt-fork/vnt/src/util/notify.rs:95-160 | if nothing registers after the count first reached zero, then once the list is drained every thread still waiting returns by its own next two steps and can always take them, whatever the others do before and between them |
| StopWakeup.WakeupIsNotLost | rust/vnt-fork/vnt/src/util/notify.rs:95-107 | no step of another thread takes the wake-up away, neither before the thread leaves the park nor before it reads the count again |
| StopWakeup.StrandedForGood | rust/vnt-fork/vnt/src/util/notify.rs:95-107 | a stranded waiter can only leave by a spurious wake-up |
| StopWakeup.UnsafeCountStrands | rust/vnt-fork/vnt/src/util/notify.rs:65-83 | counting a worker at any other moment can strand a waiter, with no further registration: the condition is exact |
| StopWakeup.LateRegistrationStrands | rust/vnt-fork/vnt/src/util/notify.rs:65-83 | a run from the start in which a late registration strands a waiter |
| StopWakeup.NoDeadlock | rust/vnt-fork/vnt/src/util/notify.rs:65-160 | every busy thread can move, is parked, or waits for a lock whose holder can move |
| StopCallback.CallbackIsOwed | rust/vnt-fork/vnt/src/util/notify.rs:120-160 | in every run, once the count has hit zero the callback was made exactly once, or some thread is on the way to it and can move, or waits for a lock whose holder can |
| StopCallback.FinisherCalls | rust/vnt-fork/vnt/src/util/notify.rs:120-160 | in every interleaving each step of such a thread brings it closer to the call in a well-founded order, and no step of the others takes it back, so that the call is made after finitely many of its own steps |
| StopCallback.NoWorkerForgotten | rust/vnt-fork/vnt/src/util/notify.rs:138-168 | in every run a worker that is being given up is in the hands of a thread until it is off the count |
| Checksum.FoldPreserves | rust/vnt-fork/vnt/packet/src/lib.rs:82-84 | one round of folding keeps the one's complement sum |
| Checksum.Fold | rust/vnt-fork/vnt/packet/src/lib.rs:82-85 | the folding loop ends in two rounds at most with the sum modulo 65535, where only 0 becomes 0 (section 4.1 of RFC 1071) |
| Checksum.WordSumAppend | rust/vnt-fork/vnt/packet/src/lib.rs:71-81 | buffers of whole words add up, so that the sum is the one of the words |
| Checksum.OnesSumModulo | rust/vnt-fork/vnt/packet/src/lib.rs:82-85 | casting out keeps the remainder modulo 65535 |
| Checksum.RfcExample | rust/vnt-fork/vnt/packet/src/lib.rs:71-87 | the example of section 3 of RFC 1071 has the sum and the checksum given there |
| Checksum.AddWords | rust/vnt-fork/vnt/packet/src/lib.rs:71-81 | the accumulating loops compute the sum of the big-endian words, an odd last byte padded, modulo 2^32 |
| Checksum.CalChecksum | rust/vnt-fork/vnt/packet/src/lib.rs:71-87 | the complement of the wrapped sum of a buffer; up to 131074 bytes the checksum of RFC 1071 |
| Checksum.Ipv4CalChecksum | rust/vnt-fork/vnt/packet/src/lib.rs:101-130 | the same seeded with addresses, protocol and length; up to 65535 bytes the checksum of RFC 1071 of pseudo header and buffer |
| Checksum.PseudoHeaderIsAdded | rust/vnt-fork/vnt/packet/src/lib.rs:101-117 | what is added for addresses, protocol and length is the sum of the words of the pseudo header of RFC 768 |
| Checksum.SeedIsPseudoHeader | rust/vnt-fork/vnt/packet/src/lib.rs:101-130 | so that starting from it is the same as putting the pseudo header in front of the buffer |
| Checksum.NoOverflow | rust/vnt-fork/vnt/packet/src/lib.rs:71-87 | up to 131074 bytes no addition overflows and the result is the one of RFC 1071 |
| Checksum.NoOverflowIpv4 | rust/vnt-fork/vnt/packet/src/lib.rs:101-130 | with the pseudo header this holds up to 131061 bytes |
| Checksum.WrappedSumIsRight | rust/vnt-fork/vnt/packet/src/lib.rs:71-87 | whatever was added before and whatever the buffer, the checksum is the one of RFC 1071 exactly if the sum stays within 32 bits, or what it drops is a multiple of 65535 times 2^32 and something is left |
| Checksum.LengthLimit | rust/vnt-fork/vnt/packet/src/lib.rs:71-87 | every buffer of a length gets the right checksum exactly if the length is at most 131074 |
| Checksum.LengthLimitIpv4 | rust/vnt-fork/vnt/packet/src/lib.rs:101-130 | with the pseudo header, whatever its addresses and protocol, exactly if it is at most 131061 |
| Checksum.OverflowIsWrong | rust/vnt-fork/vnt/packet/src/lib.rs:71-87 | a sum that overflows gives a wrong checksum, unless it is 65535 times 2^32 or more |
| Checksum.OverflowLosesACarry | rust/vnt-fork/vnt/packet/src/lib.rs:71-87 | 131075 bytes of ones, one more than the limit, come out wrong |
| Checksum.StoringTheChecksumValidates | rust/vnt-fork/vnt/packet/src/udp/udp.rs:132-136 | for every buffer, odd lengths included, the checksum stored in its zeroed even field makes recomputation give 0 |
| Checksum.OneWordCorruption | rust/vnt-fork/vnt/packet/src/lib.rs:71-130 | whatever the sum of the rest, a valid checksum misses a changed word exactly if it swaps 0 and 0xffff without the sum leaving 32 bits or becoming 0 |
| Checksum.IcmpPacket.New | rust/vnt-fork/vnt/packet/src/icmp/icmp.rs:29-35 | refuses less than 8 bytes |
| Checksum.IcmpPacket.IsValid | rust/vnt-fork/vnt/packet/src/icmp/icmp.rs:59-61 | a zero field or a sum that comes out as 0 |
| Checksum.IcmpPacket.UpdateChecksum | rust/vnt-fork/vnt/packet/src/icmp/icmp.rs:42-46 | changes the field alone, and recomputation then gives 0 |
| Checksum.TransportPacket.Udp | rust/vnt-fork/vnt/packet/src/udp/udp.rs:63-74 | refuses less than 8 bytes, and keeps the buffer and the addresses of the pseudo header |
| Checksum.TransportPacket.Tcp | rust/vnt-fork/vnt/packet/src/tcp/tcp.rs:61-77 | refuses less than 20 bytes or than the data offset, and keeps the buffer and the addresses of the pseudo header |
| Checksum.TransportPacket.IsValid | rust/vnt-fork/vnt/packet/src/tcp/tcp.rs:139-149 | a zero field or a sum with pseudo header that comes out as 0 |
| Checksum.TransportPacket.UpdateChecksum | rust/vnt-fork/vnt/packet/src/tcp/tcp.rs:98-102 | changes the field alone, and recomputation then gives 0 |
| Packets.WithFlag | rust/vnt-fork/vnt/src/protocol/mod.rs:208-228 | one flag takes the value; the other flags, the version, the unused bit and the rest of the packet stay |
| Packets.WithTtl | rust/vnt-fork/vnt/src/protocol/mod.rs:245-247 | the remaining TTL takes the value, the first one and the rest stay |
| Packets.HeadTagIgnores | rust/vnt-fork/vnt/src/cipher/finger.rs:54-63 | neither the remaining TTL nor the encryption flag nor the payload enters the tag of a head |
| Packets.SameTagExactly | rust/vnt-fork/vnt/src/cipher/finger.rs:54-63 | two heads have the same tag exactly if they agree on protocols, addresses, gateway flag and first TTL |
| Packets.TtlByte | rust/vnt-fork/vnt/src/protocol/mod.rs:179-184 | byte 3 holds the first TTL in its high half and the remaining one in its low half |
| Packets.Source | rust/vnt-fork/vnt/src/protocol/mod.rs:185-188 | the address in bytes 4 to 7 |
| Packets.Destination | rust/vnt-fork/vnt/src/protocol/mod.rs:189-192 | the address in bytes 8 to 11 |
| NetPackets.NetPacket.SetFlag | rust/vnt-fork/vnt/src/protocol/mod.rs:208-228 | in place: that flag and no other byte of the buffer |
| NetPackets.NetPacket.IncrTtl | rust/vnt-fork/vnt/src/protocol/mod.rs:248-252 | in place: one hop less, where a spent TTL wraps around to 255, of which 15 is stored |
| NetPackets.NetPacket.FirstSetTtl | rust/vnt-fork/vnt/src/protocol/mod.rs:242-244 | in place: the byte becomes `ttl << 4 | ttl` for every value, which up to 15 sets both TTLs |
| NetPackets.NetPacket.SetTtl | rust/vnt-fork/vnt/src/protocol/mod.rs:245-247 | in place: the remaining TTL alone, from the lower four bits of the value |
| NetPackets.NetPacket.SetDataLen | rust/vnt-fork/vnt/src/protocol/mod.rs:275-284 | refuses less than a head and more than the buffer |
| NetPackets.NetPacket.NewEncrypt | rust/vnt-fork/vnt/src/protocol/mod.rs:113-123 | refuses a buffer without room for a head and 60 bytes, else leaves exactly these 60 free behind the packet |
| Ciphers.PadUnpad | rust/vnt-fork/vnt/src/cipher/aes_ecb/rs_aes_ecb.rs:74-79 | unpadding (section 6.3 of RFC 5652) accepts only what padding produces |
| Ciphers.PaddedLenFits | rust/vnt-fork/vnt/src/cipher/aes_ecb/rs_aes_ecb.rs:116-122 | padding fits a room of whole blocks exactly if the input is shorter than it |
| Ciphers.XorRoundTrip | rust/vnt-fork/vnt/src/cipher/xor/xor.rs:48-73 | applying the key twice gives every byte back |
| WireFormats.XorByteAt | rust/vnt-fork/vnt/src/cipher/xor/xor.rs:59-72 | a bit of two bytes combined by XOR is one exactly if their bits differ |
| Bits.AndBitsAt | rust/vnt-fork/vnt/src/external_route/mod.rs:24 | a bit of the and is one exactly if both bits are |
| Bits.OrBitsAt | rust/vnt-fork/vnt/src/protocol/mod.rs:242-244 | a bit of the or is one exactly if one of the bits is |
| Ciphers.GcmRoundTrip | rust/vnt-fork/vnt/src/cipher/aes_gcm/aes_gcm_cipher.rs:38-112 | the layout of payload, random number, tag and finger comes apart again |
| Ciphers.PolyRoundTrip | rust/vnt-fork/vnt/src/cipher/chacha20_poly1305/rs_chacha20_poly1305.rs:37-109 | payload, tag, random number and finger, with the random number in the nonce |
| Ciphers.StreamRoundTrip | rust/vnt-fork/vnt/src/cipher/chacha20/rs_chacha20.rs:32-87 | payload, random number and finger |
| Ciphers.CbcRoundTrip | rust/vnt-fork/vnt/src/cipher/aes_cbc/rs_aes_cbc.rs:49-137 | padding and random number come off again, if the length is within the limit of decryption |
| Ciphers.EcbRoundTrip | rust/vnt-fork/vnt/src/cipher/aes_ecb/rs_aes_ecb.rs:47-143 | the packet inside the payload passes the comparison of the heads |
| Ciphers.Sm4RoundTrip | rust/vnt-fork/vnt/src/cipher/sm4_cbc/rs_sm4_cbc.rs:41-136 | the same with the iv behind the blocks |
| Ciphers.Sm4Limit | rust/vnt-fork/vnt/src/cipher/sm4_cbc/rs_sm4_cbc.rs:63-69 | what SM4 encryption accepts, up to 4064 bytes, decryption accepts, its limit of 4096 being met exactly |
| Ciphers.EncryptedIsSecret | rust/vnt-fork/vnt/src/cipher/finger.rs:54-63 | every cipher leaves the head alone but for the flag it sets, so that the tag survives any relays |
| Ciphers.RoundTrip | rust/vnt-fork/vnt/src/cipher/cipher.rs:220-266 | for every mode, payload and number of relays decryption gives the packet back, with the TTL the relays left; it fails exactly without cipher on a packet marked as encrypted, or when AES-CBC padding took the payload past the limit |
| Ciphers.RefusesItsOwn | rust/vnt-fork/vnt/src/cipher/aes_cbc/rs_aes_cbc.rs:49-137 | without finger AES-CBC encrypts every packet of 65500 bytes in a buffer of 65536 to one that its own decryption refuses |
| Ciphers.EncryptsExactly | rust/vnt-fork/vnt/src/cipher/cipher.rs:246-266 | encryption succeeds exactly if the buffer has room for the growth of the mode and the packet is within its limit, and the result has grown by that much |
| Ciphers.GrowthBound | rust/vnt-fork/vnt/src/protocol/body.rs:3-9 | no mode grows a packet by more than 56 bytes |
| Ciphers.ReserveSuffices | rust/vnt-fork/vnt/src/protocol/mod.rs:113-123 | with the 60 bytes reserved, encryption succeeds in every mode exactly on packets within the limit of the mode |
| Ciphers.WorstGrowth | rust/vnt-fork/vnt/src/protocol/body.rs:3-9 | 56 is reached, by SM4 with finger |
| Ciphers.AcceptedImpliesKeylessCheck | rust/vnt-fork/vnt/src/cipher/finger.rs:20-43 | what the receiver would accept passes the check of a relay without the key, in the modes that hash the whole body |
| Ciphers.KeylessCheckAccepts | rust/vnt-fork/vnt/src/cipher/finger.rs:20-52 | so what AES-GCM, AES-CBC, AES-ECB and SM4 produce passes it, before and after any relays |
| WireFormats.KeylessCheckExactly | rust/vnt-fork/vnt/src/cipher/finger.rs:20-52 | the check passes exactly on a marked packet whose last twelve bytes are the hash of tag, body and token |
| WireFormats.WireLayout | rust/vnt-fork/vnt/src/protocol/body.rs:11-60 | the bytes on the wire in every mode, in terms of the primitives: nonce or iv, ciphertext, tag, random number and finger, in this order |
| WireFormats.NonceMixes | rust/vnt-fork/vnt/src/cipher/finger.rs:65-76 | the nonce keeps the addresses, mixes the random number into its last four bytes, and differs for different random numbers |
| WireFormats.SameBytesExactly | rust/vnt-fork/vnt/src/cipher/finger.rs:71-76 | a packet is encrypted to the same bytes twice exactly if the mode uses no random number or the part it uses is the same |
| WireFormats.AcceptedHasFinger | rust/vnt-fork/vnt/src/cipher/finger.rs:45-52 | a packet that decrypts carries the right finger, if there is a token, in all six modes that have one |
| WireFormats.AcceptedIsOpened | rust/vnt-fork/vnt/src/cipher/cipher.rs:220-245 | a payload that is delivered comes out of the primitives: opened under tag and nonce, or padded, or inside a padded packet that repeats the tag; the head stays but for the mark |
| CipherMethods.EncryptGcm | rust/vnt-fork/vnt/src/cipher/aes_gcm/aes_gcm_cipher.rs:79-112 | in place: succeeds and leaves the packet of the function of the mode, or fails and leaves the head |
| CipherMethods.EncryptPoly | rust/vnt-fork/vnt/src/cipher/chacha20_poly1305/rs_chacha20_poly1305.rs:75-109 | in place, as above |
| CipherMethods.EncryptStream | rust/vnt-fork/vnt/src/cipher/chacha20/rs_chacha20.rs:60-87 | in place, as above |
| CipherMethods.EncryptCbc | rust/vnt-fork/vnt/src/cipher/aes_cbc/rs_aes_cbc.rs:94-137 | in place, as above, with the two length checks and the padding |
| CipherMethods.EncryptEcb | rust/vnt-fork/vnt/src/cipher/aes_ecb/rs_aes_ecb.rs:112-143 | in place, from an array of its own; a failure leaves the head alone, except that the packet is marked as encrypted exactly if the blocks fit and the finger does not |
| CipherMethods.EncryptSm4 | rust/vnt-fork/vnt/src/cipher/sm4_cbc/rs_sm4_cbc.rs:103-136 | in place, from an array of its own |
| CipherMethods.XorPayload | rust/vnt-fork/vnt/src/cipher/xor/xor.rs:59-72 | the loop over the payload |
| CipherMethods.EncryptIpv4 | rust/vnt-fork/vnt/src/cipher/cipher.rs:246-266 | whatever the mode, the packet in the buffer becomes the encrypted one, or its head stays as it was but for the mark that AES-ECB may leave |
| CipherMethods.DecryptGcm | rust/vnt-fork/vnt/src/cipher/aes_gcm/aes_gcm_cipher.rs:38-76 | in place: succeeds exactly if the function of the mode does, with its packet |
| CipherMethods.DecryptPoly | rust/vnt-fork/vnt/src/cipher/chacha20_poly1305/rs_chacha20_poly1305.rs:37-71 | in place, as above |
| CipherMethods.DecryptStream | rust/vnt-fork/vnt/src/cipher/chacha20/rs_chacha20.rs:32-59 | in place, as above |
| CipherMethods.DecryptCbc | rust/vnt-fork/vnt/src/cipher/aes_cbc/rs_aes_cbc.rs:49-91 | in place, as above; the random number goes too |
| CipherMethods.DecryptEcb | rust/vnt-fork/vnt/src/cipher/aes_ecb/rs_aes_ecb.rs:47-109 | in place, as above |
| CipherMethods.DecryptSm4 | rust/vnt-fork/vnt/src/cipher/sm4_cbc/rs_sm4_cbc.rs:41-100 | in place, as above |
| CipherMethods.Unwrap | rust/vnt-fork/vnt/src/cipher/aes_ecb/rs_aes_ecb.rs:81-105 | the inner packet replaces the payload only if the heads agree |
| CipherMethods.DecryptIpv4 | rust/vnt-fork/vnt/src/cipher/cipher.rs:220-245 | whatever the mode, succeeds exactly if decryption of the packet does, with its result |
| Compression.Compressed | rust/vnt-fork/vnt/src/compression/mod.rs:84-121 | a packet that is sent compressed is shorter than the original by more than 16 bytes and fits the buffer |
| Compression.CompressedExactly | rust/vnt-fork/vnt/src/compression/mod.rs:84-121 | when compression is tried, when it fails, when its result is used, and the bytes of the result with the tail |
| Compression.DecompressedExactly | rust/vnt-fork/vnt/src/protocol/extension.rs:40-61 | a packet is decompressed exactly if it has the flag, a tail of type zero with the number of an algorithm, and data that this accepts |
| Compression.SplitExtended | rust/vnt-fork/vnt/src/protocol/extension.rs:40-72 | splitting off an appended tail gives the packet back, without extension flag, and the algorithm |
| Compression.DecompressUndoesCompress | rust/vnt-fork/vnt/src/compression/mod.rs:84-134 | a shrunk packet comes out whole, under whatever head it arrives with, exactly if there is room for it |
| Compression.AppendTail | rust/vnt-fork/vnt/src/protocol/extension.rs:62-72 | in place: extends the packet if its buffer has room |
| Compression.Compress | rust/vnt-fork/vnt/src/compression/mod.rs:84-121 | in place: error, keep the original, or the compressed packet in the other buffer |
| Compression.HandleExtensionTail | rust/vnt-fork/vnt/src/handle/extension/mod.rs:6-24 | in place: says so if there is no tail, and leaves the packet; otherwise the restored packet in the spare buffer exactly if the tail and the data are good |
| Relays.Turn | rust/vnt-fork/vnt/src/handle/recv_data/turn.rs:19-51 | takes one hop, whatever is left, and relays over the first route to the destination if it is not the way back and short enough |
| Relays.TtlNeverUnderflows | rust/vnt-fork/vnt/src/handle/recv_data/mod.rs:133-175 | behind the check of the dispatcher no relay takes a hop from a packet that has none left, whatever its TTLs when it started |
| Relays.Handle | rust/vnt-fork/vnt/src/handle/recv_data/mod.rs:133-175 | drops what is stale, keeps what is addressed here, relays the rest |
| Relays.HandledExactly | rust/vnt-fork/vnt/src/handle/recv_data/mod.rs:133-175 | in terms of the bytes of the packet: it is kept exactly if fresh and addressed here or to everybody, forwarded exactly if fresh, for somebody else, without gateway flag and with a first route that does not lead back and has few enough hops |
| Relays.TripLosesHops | rust/vnt-fork/vnt/src/handle/recv_data/turn.rs:27-50 | on any trip through any nodes a packet loses one hop per relay and nothing else |
| Relays.HopsAreBounded | rust/vnt-fork/vnt/src/handle/recv_data/turn.rs:27-50 | a packet first sent with TTL t is forwarded at most t - 1 times, and the TTLs differ by the relays crossed |
| Relays.ArrivesExactly | rust/vnt-fork/vnt/src/handle/recv_data/turn.rs:27-50 | a packet arrives after d relays exactly if it passes each of the first d nodes, the next one keeps it, and it had more than d hops |
| Relays.ArrivesAt | rust/vnt-fork/vnt/src/handle/recv_data/turn.rs:27-50 | a packet for an address arrives after d relays exactly if node d is the one it is for, and the d nodes before are not but reach it in the hops that are left |
| Relays.BoundIsMet | rust/vnt-fork/vnt/src/handle/recv_data/turn.rs:27-50 | there are chains of relays on which it is forwarded t - 1 times |
| Pipeline.Address | rust/vnt-fork/vnt/src/channel/sender.rs:76-82 | in place: everything in the head but the flags is set |
| Pipeline.CompressAndEncrypt | rust/vnt-fork/vnt/src/channel/sender.rs:119-132 | the packet for the peers is the encrypted form of the addressed packet or of its compressed form; nothing comes out exactly if compression or encryption fails or the auxiliary buffer is too short; the flags of both buffers stay fit for the next packet |
| Pipeline.MadeExactly | rust/vnt-fork/vnt/src/channel/sender.rs:119-132 | there is a packet for the peers exactly if neither compression nor encryption fails, and it is the encrypted form of what was produced |
| Pipeline.AddressedTo | rust/vnt-fork/vnt/src/channel/sender.rs:76-82 | source and destination are read back as they were written |
| Senders.SendIp | rust/vnt-fork/vnt/src/channel/sender.rs:57-151 | does nothing if this peer has no address; otherwise addresses the packet to the gateway of the destination, or to everybody for a multicast one, and by the peers known sends it nowhere, over WireGuard alone, or to the peers, with a copy over WireGuard for a broadcast if somebody there is online; to the peers by way of the server for a broadcast, and not at all outside the network |
| Senders.ResolvedExactly | rust/vnt-fork/vnt/src/channel/sender.rs:69-75 | the gateway of the destination if it has one, and everybody for a multicast address |
| Senders.WayExactly | rust/vnt-fork/vnt/src/channel/sender.rs:83-117 | when a packet goes nowhere, over WireGuard alone, or to the peers with a copy, by what is known of the peers |
| Senders.InNetworkExactly | rust/vnt-fork/vnt/src/handle/mod.rs:250-252 | an address is in the network exactly if it agrees with the gateway in the bits of the mask |
| Senders.SentToPeersExactly | rust/vnt-fork/vnt/src/channel/sender.rs:132-151 | an error, the server, the peer, or nobody, by what was made and where it goes |
| Senders.SendToWg | rust/vnt-fork/vnt/src/channel/sender.rs:174-186 | in place: the packet marked for the server and encrypted under its cipher; the mark stays in the buffer |
| Senders.SendToWgBroadcast | rust/vnt-fork/vnt/src/channel/sender.rs:154-173 | the same for a copy in a buffer of its own, refused beyond 65536 bytes; the packet itself stays |
| Senders.WiredArrives | rust/vnt-fork/vnt/src/channel/sender.rs:174-186 | a packet goes over WireGuard exactly if the server's cipher has room and accepts its length, and the server gets back its addresses, payload and mark |
| Senders.CopyArrives | rust/vnt-fork/vnt/src/channel/sender.rs:154-173 | the same of a copy, in 65536 bytes |
| Senders.MarkedExactly | rust/vnt-fork/vnt/src/channel/sender.rs:180-181 | the mark is the transport protocol and the gateway flag and nothing else |
| Senders.CopyExactly | rust/vnt-fork/vnt/src/channel/sender.rs:160-168 | the copy has payload and addresses of the packet under a head of its own |
| Senders.StaleMarkStopsRelays | rust/vnt-fork/vnt/src/channel/sender.rs:181 | the next uncompressed packet from a buffer that still has the mark is relayed by nobody |
| Senders.ReadyOnceCleared | rust/vnt-fork/vnt/src/handle/tun_tap/unix.rs:148-149 | a caller that clears the head before each packet has ready buffers for good, whatever is sent, over WireGuard too |
| Pipeline.Receive | rust/vnt-fork/vnt/src/handle/recv_data/client.rs:74-95 | decrypts, updates the read time of the route by which a good packet came, and undoes the compression into the spare buffer |
| Pipeline.EndToEnd | rust/vnt-fork/vnt/src/channel/sender.rs:119-132 | for every payload, compressor, cipher and TTL left: the receiver gets back the payload and the head that were sent, but for the TTL, exactly if the packet was intact, as told by the first bytes of the two buffers, the lengths and the room to decompress |
| Pipeline.FlaggedPacketIsLost | rust/vnt-fork/vnt/src/channel/sender.rs:76-82 | a buffer with the extension flag set from before, sent without cipher and compression, is lost |
| Pipeline.ReadyAgain | rust/vnt-fork/vnt/src/channel/sender.rs:76-132 | sender buffers that start with clear flags may be used again and again for packets to the peers |
| Pipeline.ReadyArrives | rust/vnt-fork/vnt/src/channel/sender.rs:119-132 | from such buffers every packet arrives |
| Pipeline.SentRelayedReceived | rust/vnt-fork/vnt/src/handle/recv_data/turn.rs:19-51 | sent, relayed by any nodes and received: the packet as it was sent, one hop less per relay, five relays at most |
| Pipeline.SentArrives | rust/vnt-fork/vnt/src/channel/sender.rs:76-132 | what is sent to an address arrives after d relays exactly if d is at most five, node d is the one it is for, and the nodes before are not but reach it |
| SchedulerProtocol.StepKeepsInv | rust/vnt-fork/vnt/src/util/scheduler.rs:77-176 | every step of every thread keeps the invariant of the scheduler |
| SchedulerProtocol.SafeRun | rust/vnt-fork/vnt/src/util/scheduler.rs:77-176 | in every run tasks start on time and before later ones in the heap, accepted tasks are started, in the heap or in the channel, and at most one starts after the shutdown flag is stored |
| SchedulerProtocol.SendsExactly | rust/vnt-fork/vnt/src/util/scheduler.rs:77-105 | a submission is appended while the thread is there and the channel has room, and is lost otherwise |
| SchedulerProtocol.BlocksOnlyIdle | rust/vnt-fork/vnt/src/util/scheduler.rs:156-160 | in every run the thread waits without a deadline only while its heap is empty |
| SchedulerProtocol.LooksAgain | rust/vnt-fork/vnt/src/util/scheduler.rs:115-166 | after a task, a time-out or an operation received on the way, and as long as a task is left, the thread looks at its heap again |
| SchedulerProtocol.NeverFull | rust/vnt-fork/vnt/src/util/scheduler.rs:77-105 | with at most 31 tasks alive no submission finds the channel full, a Stop on its way or not |
| SchedulerProtocol.RefusalExactly | rust/vnt-fork/vnt/src/util/scheduler.rs:77-105 | a submission can find the channel full exactly if 32 tasks may be alive |
| SchedulerProtocol.StartsBetweenReceives | rust/vnt-fork/vnt/src/util/scheduler.rs:112-166 | between two receives no more tasks start than the heap held, since rescheduled ones go to the channel |
| SchedulerProtocol.NoStarvation | rust/vnt-fork/vnt/src/util/scheduler.rs:112-166 | in every run the operation at position k of the channel has been received, or the thread was shut down, by the time the thread has taken a number of steps that depends on where it is, on its heap and on k, whatever the others do |
| SchedulerProtocol.ShutdownCompletes | rust/vnt-fork/vnt/src/util/scheduler.rs:106-166 | from the moment the Stop is in the channel, in every run, the steps the thread takes and those it has left never exceed a number given by where it is and by the place of the Stop; with none left it has ended |
| SchedulerProtocol.ShutdownIsQuick | rust/vnt-fork/vnt/src/util/scheduler.rs:106-166 | that number is below 350 |
| SchedulerProtocol.NeverStuck | rust/vnt-fork/vnt/src/util/scheduler.rs:112-166 | while an operation waits in the channel the thread always has a next step, until it has ended |
| SchedulerProtocol.DeadlineComes | rust/vnt-fork/vnt/src/util/scheduler.rs:119-133 | while nothing waits, the passing of time alone lets the thread go on from a wait to its task |
| Schedulers.Scheduler.Timeout | rust/vnt-fork/vnt/src/util/scheduler.rs:77-105 | accepts exactly while running, with the receiver alive and room in the channel, and appends to the channel |
| Schedulers.Scheduler.AddTask | rust/vnt-fork/vnt/src/util/scheduler.rs:168-176 | pushes a task, or says to end |
| Schedulers.Scheduler.Receive | rust/vnt-fork/vnt/src/util/scheduler.rs:140-153 | moves every task up to a Stop from the channel to the heap |
| Schedulers.Scheduler.End | rust/vnt-fork/vnt/src/util/scheduler.rs:69-73 | drops the receiver with what waits in the channel, and stores the flag, so that every later submission is refused |
| Schedulers.Scheduler.RunDue | rust/vnt-fork/vnt/src/util/scheduler.rs:115-139 | runs exactly what is due, in the order of deadlines, none early, and nothing once shut down; the channel grows by what the tasks submit, in order, up to its length, and by nothing else |
| StableSorts.SortSorts | rust/vnt-fork/vnt/src/channel/context.rs:443 | the sort leaves the list in order |
| StableSorts.SortPlaces | rust/vnt-fork/vnt/src/channel/context.rs:443 | every element ends up behind those that have to come before it and behind the ties that stood before it |
| StableSorts.SortOrigin | rust/vnt-fork/vnt/src/channel/context.rs:443 | every position holds exactly one of the elements |
| StableSorts.TiesKeepOrder | rust/vnt-fork/vnt/src/external_route/mod.rs:15 | elements that tie stay in the order they were given |
| ExternalRoutes.ToIp | rust/vnt-fork/common/src/args_parse.rs:69-82 | the loop builds the mask of the prefix length, and refuses more than 32 |
| ExternalRoutes.LongerIsGreater | rust/vnt-fork/common/src/args_parse.rs:74-78 | a longer prefix has the greater mask |
| ExternalRoutes.LongerKeepsMore | rust/vnt-fork/vnt/src/external_route/mod.rs:24 | an address keeps more of its bits under a longer prefix |
| ExternalRoutes.MaskAndSort | rust/vnt-fork/vnt/src/external_route/mod.rs:11-17 | the in-place masking and the sort give the table of the lemmas |
| ExternalRoutes.ExternalRoute.constructor | rust/vnt-fork/vnt/src/external_route/mod.rs:11-17 | the table of routes is the masked and sorted list |
| ExternalRoutes.ExternalRoute.Route | rust/vnt-fork/vnt/src/external_route/mod.rs:18-29 | the gateway of the first entry that matches |
| ExternalRoutes.LookupFinds | rust/vnt-fork/vnt/src/external_route/mod.rs:15-27 | a lookup finds the gateway of the network that contains the address, has the greatest masked destination of those that do, and was given first among these; none exactly if no network contains it |
| ExternalRoutes.ContainsPrefix | rust/vnt-fork/vnt/src/external_route/mod.rs:24 | a network contains exactly the addresses that agree with it in the bits of its prefix |
| ExternalRoutes.NumberOctets | rust/vnt-fork/vnt/src/external_route/mod.rs:19 | an address as a number has its octets in order, the first one greatest |
| ExternalRoutes.HitIsGreatest | rust/vnt-fork/vnt/src/external_route/mod.rs:15-27 | the hit has the greatest destination of all entries that match |
| ExternalRoutes.HitIsFirst | rust/vnt-fork/vnt/src/external_route/mod.rs:15-27 | among those with the same destination it is the one given first |
| ExternalRoutes.MissExactly | rust/vnt-fork/vnt/src/external_route/mod.rs:18-29 | a lookup fails exactly if no network that was given contains the address |
| ExternalRoutes.LongerSharesDestination | rust/vnt-fork/vnt/src/external_route/mod.rs:15-27 | a longer prefix that matches has the same destination as the hit |
| ExternalRoutes.LongestExactly | rust/vnt-fork/vnt/src/external_route/mod.rs:15-27 | the hit is the longest match (section 5.1 of RFC 4632) exactly if some longest one of the given entries that contain the address is given before all others of its destination that do |
| ExternalRoutes.LongerFirstIsRight | rust/vnt-fork/vnt/src/external_route/mod.rs:15-27 | tables that list longer prefixes of a destination first are right for every address |
| ExternalRoutes.ShorterFirstHides | rust/vnt-fork/vnt/src/external_route/mod.rs:15-27 | a shorter prefix listed first hides a longer one of the same destination |
| ExternalRoutes.TenNetHides | rust/vnt-fork/vnt/src/external_route/mod.rs:15-27 | 10.0.0.0/8 before 10.0.0.0/16 hides the latter |
| ExternalRoutes.AllowExternalRoute.Allow | rust/vnt-fork/vnt/src/external_route/mod.rs:54-65 | allows exactly if some network of the table contains the address |
| ExternalRoutes.AllowsExactly | rust/vnt-fork/vnt/src/external_route/mod.rs:45-65 | masking and sorting do not change which addresses are allowed |
| Punching.PunchSymmetric | rust/vnt-fork/vnt/src/channel/punch.rs:422-442 | the loops send what the sweep says and return the ports done, or stop at the first send that fails |
| Punching.SweepIsPrefix | rust/vnt-fork/vnt/src/channel/punch.rs:422-442 | a call sends the first pairs of port and address, one less than its limit if there are enough |
| Punching.PairsExactly | rust/vnt-fork/vnt/src/channel/punch.rs:427-441 | the pairs are every port with every address, port by port |
| Punching.DoneExactly | rust/vnt-fork/vnt/src/channel/punch.rs:422-442 | a call counts exactly those ports as done whose sends all come before the one at the limit |
| Punching.StretchExactly | rust/vnt-fork/vnt/src/channel/punch.rs:378-382 | a call goes over the next ports from where the last one stopped, as many as it may send, or all that are left |
| Punching.DoneIsSent | rust/vnt-fork/vnt/src/channel/punch.rs:422-442 | a port that counts as done was tried at every address |
| Punching.GetsOnExactly | rust/vnt-fork/vnt/src/channel/punch.rs:422-442 | a call gets a port done exactly if its limit exceeds the number of addresses |
| Punching.MaxK2Shares | rust/vnt-fork/vnt/src/channel/punch.rs:352-358 | the limit of a call is the random number for the first two attempts, then twice that number shared among the attempts and rounded down, but at least 60; it is from 60 to 799 |
| Punching.Punch.PunchPeer | rust/vnt-fork/vnt/src/channel/punch.rs:378-393 | sends the next stretch and remembers where to go on, or stays where it was if a send fails |
| Punching.EveryPortIsTried | rust/vnt-fork/vnt/src/channel/punch.rs:234-237 | between two wraps every port from 1 to 65535 gets a packet at every address, whatever the limits |
| Punching.SweepEnds | rust/vnt-fork/vnt/src/channel/punch.rs:378-393 | a sweep ends within as many calls as there are ports left |
| TcpFraming.TcpWrite | rust/vnt-fork/vnt/src/channel/tcp_channel.rs:149-158 | writes the frames up to the first packet that is too long for the head |
| TcpFraming.TcpRead | rust/vnt-fork/vnt/src/channel/tcp_channel.rs:160-189 | delivers packets until bytes are missing, the head is wrong or the length is not between 12 and 65536 |
| TcpFraming.StopsExactly | rust/vnt-fork/vnt/src/channel/tcp_channel.rs:160-189 | when a reader takes no packet, and how it ends |
| TcpFraming.LengthSurvives | rust/vnt-fork/vnt/src/channel/tcp_channel.rs:154-177 | the three bytes of length give the length back |
| TcpFraming.RoundTrip | rust/vnt-fork/vnt/src/channel/tcp_channel.rs:149-189 | reading the frames of any packets of 12 to 65536 bytes delivers exactly these in order, with nothing left over |
| TcpFraming.DeliversReadable | rust/vnt-fork/vnt/src/channel/tcp_channel.rs:149-189 | of any packets, those before the first one the reader refuses are delivered, and the reader gives up exactly if the writer had taken that one |
| TcpFraming.TooLongForReader | rust/vnt-fork/vnt/src/channel/tcp_channel.rs:149-189 | a packet of 65537 to 16777215 bytes, which the writer takes, ends the stream: neither it nor any packet behind it is delivered |
| TcpFraming.CutStreamDeliversPrefix | rust/vnt-fork/vnt/src/channel/tcp_channel.rs:173-187 | a stream cut anywhere delivers a prefix of the packets and keeps the rest of the bytes |
| AddressChoice.AddressChooser.Choose | rust/vnt-fork/vnt/src/util/dns_query.rs:16-39 | the choice and the new history; a failed choice may still have cleared the history |
| AddressChoice.ChooseFrom | rust/vnt-fork/vnt/src/util/dns_query.rs:43-77 | the first address that connects, IPv6 before IPv4 |
| AddressChoice.ChosenExactly | rust/vnt-fork/vnt/src/util/dns_query.rs:16-77 | a choice takes the first address offered that connects and has been used less than three times, unless all have, IPv4 only without IPv6; what fails and what is counted |
| AddressChoice.PreferredOrder | rust/vnt-fork/vnt/src/util/dns_query.rs:43-77 | IPv6 addresses come before IPv4 addresses |
| AddressChoice.ChosenKeepsBound | rust/vnt-fork/vnt/src/util/dns_query.rs:16-39 | a choice keeps every count at three or less, whatever the list and whatever connects |
| AddressChoice.NoneEverOverused | rust/vnt-fork/vnt/src/util/dns_query.rs:16-39 | in every run of choices, whatever the lists and whatever connects, no count ever exceeds three |
| AddressChoice.NextTurn | rust/vnt-fork/vnt/src/util/dns_query.rs:16-39 | while an address is left the choice is the next one in turn |
| AddressChoice.StartsOver | rust/vnt-fork/vnt/src/util/dns_query.rs:25-28 | once all are used up the history is cleared and the rotation starts over |
| AddressChoice.FailsForGood | rust/vnt-fork/vnt/src/util/dns_query.rs:25-29 | with an address that never connects in the list it is never cleared, and every further choice fails |
| AddressChoice.RotationIsFair | rust/vnt-fork/vnt/src/util/dns_query.rs:16-77 | if all connect, every block of three times as many choices as addresses picks each three times, in the order of preference |
| AddressChoice.ThreeOfEach | rust/vnt-fork/vnt/src/util/dns_query.rs:21 | each address occurs exactly three times in a round |
| AddressChoice.OneRoundOnly | rust/vnt-fork/vnt/src/util/dns_query.rs:16-77 | if some address does not connect, the others get one round and then every choice fails |

## Left out

- Sockets, threads, TUN devices, DNS, STUN and UPnP traffic, WebSocket, command line and user interface:
  input and output. Sends that may fail, addresses that may connect, random numbers, shuffles and clocks
  are parameters.
- The primitives (AES, SM4, ChaCha20, Poly1305, SHA-256, lz4, zstd) are functions with laws of length and
  inversion; nothing is claimed about secrecy. `SomeSuiteIsLawful` and `SomeCodecCompresses` show that
  there are functions with these laws.
- The ring and openssl variants of the ciphers share the layout of the modelled ones. Their length checks
  are not modelled; the AES-ECB of openssl writes to its array of 5120 bytes without one.
- The key derivation `simple_hash` of the XOR cipher, and RSA.
- SendIp: ends where the packet is handed to the channel. Whether a packet for a peer goes out by a route of
  the table or by way of the server, simulated loss and delay, and failing sends come after that.
- NoDeadlock: takes listeners as atomic and non-blocking. They run under the listener lock, so one that
  calls the manager blocks itself.
- IncrTtl: wraps around on a spent TTL, where debug builds panic; `TtlNeverUnderflows` shows that no packet
  gets there behind the dispatcher.
- `is_stopped` and the `state` flag of the stop manager, which its own code never reads.
- The atomic counter stored with each peer of the route table, which is never read, and its getters for
  reporting.
- The predicted-port window of hole punching, whose arithmetic underflows in debug builds when port and
  range are both 0, and punching behind cone NATs.
- Debug builds panic where 32-bit sums overflow; the model wraps, as release builds do.
- AddWords: takes for granted, as the code does, that a two-byte read that fails leaves the cursor where it
  was. A library that moves the cursor to the end instead makes the code panic on odd lengths.
- KeylessCheckAccepts: leaves out the ChaCha modes, whose finger does not cover the random number that the
  key-less check hashes.
- RouteOne: says nothing of the last route of a list, which may be an unsorted newcomer that is faster.
- RotationIsFair: is about one fixed list; the history is shared by all lists of a thread.
- What the scheduler thread does once its loop has ended is in `Scheduler.End` alone, and there without
  the `stop_all` that makes the others stop.
- SafeRun: allows a task that calls `timeout` more than once as if another thread had called it.
- The binary heap, the stable sorts and `retain` of the standard library are functions with the documented
  behaviour; their implementation is not modelled.
- Parsing of addresses and prefix lengths from text.
