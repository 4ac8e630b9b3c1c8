# Verification of the XDP tutorial's algorithmic cores

This project models, in Dafny, the parts of the XDP tutorial that compute something hard: who owns
which packet buffer in the AF_XDP example, the incremental Internet checksums, the packet parsers
and in-place VLAN rewriting, the Jenkins hash, and the reader of the per-CPU statistics. It proves
what these parts promise for all inputs, all runs and both byte orders. `dafny verify
dfyconfig.toml` checks everything.

Code that works in place is modelled in place: packets are byte arrays, pointers are offsets into
them, the parsers are a class with a moving cursor, `struct xdp_md` is a buffer whose packet head
moves, the AF_XDP socket is a class over its stack array, its four rings and the UMEM buffer, with
a ghost record of all steps and of the memory before and after each. Each such method is proved
equal to a function of the old contents, or to a run of a state machine, and the theorems are about
those functions and runs.

| file | models |
|---|---|
| `Bytes.dfy`, `Word32.dfy`, `Division.dfy`, `Xdp.dfy` | bytes, 16-bit words, host byte order; 32-bit arithmetic; division; constants |
| `OnesComplement.dfy` | the 16-bit checksum operations and the three incremental update formulas |
| `InternetChecksum.dfy` | checksums of byte strings of any length (section 2 of RFC 1071) |
| `Router.dfy` | `xdp_router_func`: one hop, and any number of hops |
| `IpHeaders.dfy`, `RouterFields.dfy` | IP packets built from header fields (RFC 791, RFC 8200); the router on them |
| `SwapHelpers.dfy`, `EchoReply.dfy` | the address swaps; the ICMPv6 reply `process_packet` builds |
| `IcmpEcho.dfy`, `EndAroundDiff.dfy` | `xdp_icmp_echo_func`; its reply for a helper that sums with end-around carry |
| `Parsing.dfy`, `EchoVerdict.dfy` | the header parsers; `xdp_parser_func` |
| `VlanRewrite.dfy` | VLAN push, pop and `xdp_vlan_swap_func` |
| `JenkinsHash.dfy` | `jhash` and its word-wise forms |
| `NativeXor.dfy`, `JenkinsVectors.dfy` | the exclusive or of words against that of bit vectors; the published hash of a known key |
| `XskRing.dfy` | the single-producer single-consumer rings with free-running 32-bit indices |
| `XskMachine.dfy`, `XskInvariants.dfy` | frame ownership as a state machine of user and kernel steps; what its runs keep |
| `XskProgram.dfy` | the order of the program's steps in that machine, and what its refill stages |
| `XskUnderflow.dfy` | program runs whose refill pops an empty stack, and the configurations that have one |
| `XskMemory.dfy` | the bytes of the UMEM area along the runs of the machine |
| `XskSocket.dfy` | the AF_XDP program on its real data, as runs of that machine |
| `StatsReader.dfy` | the statistics reader against concurrent counters and a loader |

## What is assumed of the kernel

* Byte order is a parameter `Host`; the hash is modelled on a little-endian host, as its own comment
  restricts it.
* `bpf_fib_lookup` is an arbitrary function of the query the program builds, different at every hop
  if one likes. `bpf_redirect_map` is a flag. `bpf_csum_diff` is an arbitrary function; only the
  theorems about the validity of the reply assume that its result is congruent to
  seed + ~old + new modulo 0xFFFF. `bpf_xdp_adjust_head` may refuse at any time, must refuse to leave
  the buffer or fewer than 14 bytes, and a refusal changes nothing.
* The AF_XDP kernel may act at each `Interleave`, in any number of steps: it takes FILL entries,
  delivers packets, takes TX descriptors and completes them, in any order within its own queues. A
  packet it delivers has at least 14 bytes and lies inside the chunk of the frame, at any offset.
  Between two of its ring operations it writes any bytes it likes into the chunks it holds to receive
  packets in them, and into no other; such writes are counted with the ring operation that follows
  them. Ring sizes are parameters; the ring accessors follow libbpf's `xsk.h`, which is not part of
  this model.
* `Interleave` is a contract on which its callers rely; its body does nothing, since what the kernel
  holds is not data of the program. Every kernel step is a method shown to meet the contract, and
  `Play` shows it for any sequence of them. `World.Interfere` makes an arbitrary sequence of counter
  updates and re-pins.
* A map lookup succeeds, map ids are not reused, and true counts are unbounded while stored ones are
  modulo 2^64.

## Results that are not what one might expect

* `parse_ethhdr` returns the EtherType in network byte order, although the comment at the top of
  `common/parsing_helpers.h` says host order; the model follows the code.
* `__parse_ethhdr_vlan` masks the tag word as loaded, without swapping its bytes, so on a little-endian
  host what it records is not the VLAN number (`RecordedOnFrame` says what it is).
* The IPv4 length check compares with the size of a pointer, so headers whose length field is 2, 3 or
  4 are accepted (`ShortIpv4HeaderAccepted` says exactly when). `xdp_parser_func` and the echo server
  are modelled with that check.
* `csum_fold_helper` folds once. The reply of the echo server is valid if and only if the two halves
  of the helper's result add without carry (`PatchExact`, `Answer4Exact`, `Answer6Exact`). The
  documented promise of `bpf_csum_diff` does not decide this: for every valid request one helper that
  keeps it makes a valid reply and another an invalid one (`PromiseUndecided4`,
  `PromiseUndecided6`). For a helper that returns the 32-bit sum with end-around carry the checksum
  field of the request decides (`ReplyValid4`, `ReplyValid6`).
* The refill of the FILL ring may pop an empty stack and hand INVALID_UMEM_FRAME to the kernel if the
  kernel holds frames between FILL and RX: with two or more FILL slots, and only then, some run in
  program order gets there, however many frames there are (`RefillCanUnderflow`, `UnderflowExact`).
  `RefillExact` says exactly when, for a local copy of the ring that may be stale: unless the copy
  shows exactly one slot for every frame on the stack, as it does when both are exhausted, or no more
  slots are free than that; as long as none was handed over, the second case is that at most
  frames - fill size frames are outside stack and FILL ring. `Refill` states the same of the ring's
  entries. `ShippedRunClean` shows that the shipped configuration never gets there with a kernel that
  moves frames in one step.
* `outstanding_tx` only ever grows and wraps at 2^32; `NothingStranded` says when its being zero can
  be trusted.
* An echo request that finds the TX ring full is rewritten in the buffer and then freed
  (`ProcessPacket`).

## Model

| member | source | states |
|---|---|---|
| `XskMachine.StepConserves` | advanced03-AF_XDP/af_xdp_user.c:146-386 | every step of user space or of the kernel, in any state, moves frames and neither loses nor duplicates one: the number of frames, and the number held of each chunk, is unchanged |
| `XskInvariants.InitInv` | advanced03-AF_XDP/af_xdp_user.c:200-205 | the filled stack, with empty rings, satisfies the invariant |
| `XskInvariants.StepInv` | advanced03-AF_XDP/af_xdp_user.c:146-386 | one step of either side keeps the whole invariant: partition, ring bounds, no INVALID_UMEM_FRAME outside the FILL ring, counters, packets inside their chunk |
| `XskInvariants.RunInv` | advanced03-AF_XDP/af_xdp_user.c:146-386 | so does every run: however user space and the kernel interleave, each chunk is in exactly one place, and the counters agree |
| `XskInvariants.FreeNeverOverflows` | advanced03-AF_XDP/af_xdp_user.c:157-162 | whenever a frame is about to be freed the stack has room, so the assert never fires |
| `XskInvariants.StackIsDistinct` | advanced03-AF_XDP/af_xdp_user.c:146-162 | two entries of the stack never belong to the same chunk |
| `XskInvariants.StackIsExclusive` | advanced03-AF_XDP/af_xdp_user.c:146-162 | a chunk on the stack is a real chunk, is there once, and is in no ring, batch or kernel queue |
| `XskInvariants.NothingStranded` | advanced03-AF_XDP/af_xdp_user.c:229-235 | while fewer than 2^32 replies were made, outstanding_tx is zero only if TX, the kernel and COMPLETION hold no frame; in general it is zero only at a multiple of 2^32 |
| `XskInvariants.PacketsBalance` | advanced03-AF_XDP/af_xdp_user.c:370-385 | between batches rx_packets is the number of replies plus the number of frames freed straight away, and tx_packets never exceeds it |
| `XskInvariants.RunCounters` | advanced03-AF_XDP/af_xdp_user.c:328-382 | over any run tx_packets is the number of packets sent, outstanding_tx the same modulo 2^32, and rx_packets, between batches, the number of packets sent or freed |
| `XskInvariants.BoundedReserveClean` | advanced03-AF_XDP/af_xdp_user.c:349-368 | with at most frames - fill size frames outside stack and FILL ring, any reservation that the possibly stale local copy allows can be served from the stack |
| `XskInvariants.FreshReserveExact` | advanced03-AF_XDP/af_xdp_user.c:349-368 | for an up-to-date copy and the reservation of all free slots the bound is exact: one frame more outside, and the reservation cannot be served; the refill of the program, whose copy may be stale, is XskProgram.RefillExact |
| `XskInvariants.BoundedRunClean` | advanced03-AF_XDP/af_xdp_user.c:349-368 | in a run whose reservations all keep the bound INVALID_UMEM_FRAME never enters the FILL ring |
| `XskInvariants.ShippedRunClean` | advanced03-AF_XDP/af_xdp_user.c:34-37 | with replies off, a kernel that hands frames from FILL to RX in one step, and at least as many frames as FILL and RX have slots, no run ever stages INVALID_UMEM_FRAME |
| `XskProgram.RefillExact` | advanced03-AF_XDP/af_xdp_user.c:349-368 | the refill of the program, its local copy stale or not, takes INVALID_UMEM_FRAME from the stack unless, and only unless, the copy shows exactly one slot for every frame on the stack or no more slots are free than that; if none was handed over before, the second case is that at most frames - fill size frames are outside stack and FILL ring |
| `XskProgram.ServedInvalid` | advanced03-AF_XDP/af_xdp_user.c:146-155 | n pops of the stack yield INVALID_UMEM_FRAME if and only if n is greater than its height |
| `XskUnderflow.RefillCanUnderflow` | advanced03-AF_XDP/af_xdp_user.c:345-368 | for every configuration with at least two FILL slots and no more of them than frames, so also for the shipped sizes, and a kernel that holds frames between FILL and RX: a run in program order, of the filling of the ring and some whole batches, after which the next batch peeks a packet and its refill hands INVALID_UMEM_FRAME to the kernel |
| `XskUnderflow.UnderflowExact` | advanced03-AF_XDP/af_xdp_user.c:339-386 | exactly when: for such a kernel some run in program order, cut off anywhere, shows INVALID_UMEM_FRAME in the FILL ring if and only if that ring has more than one slot, or there is no frame at all |
| `XskRing.SlotOfWrapped` | advanced03-AF_XDP/af_xdp_user.c:363-365 | masking a wrapped 32-bit index gives the slot of the unwrapped position, past any number of wraparounds |
| `XskRing.SlotsDistinct` | advanced03-AF_XDP/af_xdp_user.c:363-365 | positions less than one ring apart use different slots |
| `XskRing.WrappedDifference` | advanced03-AF_XDP/af_xdp_user.c:69-73 | the wrapped difference of two free-running indices is their true difference |
| `XskRing.ProdRing.Free` | advanced03-AF_XDP/af_xdp_user.c:69-73 | reading the consumer index gives exactly the size minus the entries not yet consumed |
| `XskRing.ProdRing.NbFree` | advanced03-AF_XDP/af_xdp_user.c:349-351 | the number of free slots, which may exceed the number asked for; stale it is too small, never too large, and it is exact when it is smaller than the number asked for |
| `XskRing.ProdRing.Reserve` | advanced03-AF_XDP/af_xdp_user.c:355-356 | all slots or none; the consumer index is read only if the local copy shows too few |
| `XskRing.ProdRing.SetSlot` | advanced03-AF_XDP/af_xdp_user.c:364-365 | writing the next reserved slot changes no entry the kernel can see and none written before |
| `XskRing.ProdRing.Submit` | advanced03-AF_XDP/af_xdp_user.c:367 | the written entries become visible to the kernel in order, behind the older ones; it is called only when every reserved slot was written |
| `XskRing.ProdRing.PutOne` | advanced03-AF_XDP/af_xdp_user.c:320-328 | reserve, write and submit one entry: it is appended if and only if the ring has a free slot |
| `XskRing.ConsRing.Peek` | advanced03-AF_XDP/af_xdp_user.c:241-243 | takes exactly as many entries as asked, or all the local copy shows, or, if it shows none, all the producer shows; so nothing only if there is nothing |
| `XskRing.ConsRing.Get` | advanced03-AF_XDP/af_xdp_user.c:372-373 | the k-th peeked entry, by wrapped index |
| `XskRing.ConsRing.Release` | advanced03-AF_XDP/af_xdp_user.c:251 | gives the peeked slots back to the kernel |
| `XskSocket.XskSocketInfo.constructor` | advanced03-AF_XDP/af_xdp_user.c:200-205 | the initial state of the machine: all frames on the stack |
| `XskSocket.XskSocketInfo.FillStack` | advanced03-AF_XDP/af_xdp_user.c:202-203 | entry i of the stack is the i-th chunk |
| `XskSocket.XskSocketInfo.AllocUmemFrame` | advanced03-AF_XDP/af_xdp_user.c:146-155 | pops the stack, or returns INVALID_UMEM_FRAME and changes nothing if it is empty; entries above the top are INVALID_UMEM_FRAME |
| `XskSocket.XskSocketInfo.FreeUmemFrame` | advanced03-AF_XDP/af_xdp_user.c:157-162 | pushes the frame; the assert of the source is its precondition, which every caller meets |
| `XskSocket.XskSocketInfo.StuffFillRing` | advanced03-AF_XDP/af_xdp_user.c:207-220 | succeeds if and only if the ring holds no entry; then the steps are one reservation, one write for every slot, one submission, and the entries are what the stack gave; if not, only the copy of the consumer index changes |
| `XskSocket.XskSocketInfo.Refill` | advanced03-AF_XDP/af_xdp_user.c:349-368 | the steps are a look at the consumer index if the copy shows fewer slots than frames on the stack, one reservation of exactly the slots then shown, one write for each, one submission; the last entries of the ring are what the stack gave, and when INVALID_UMEM_FRAME is among them, as an equivalence |
| `XskSocket.XskSocketInfo.ReserveFillSlots` | advanced03-AF_XDP/af_xdp_user.c:355-361 | all slots if the copy shows them or they are free, else none; a reservation of no more than the copy shows succeeds at once, so the retry loop never iterates |
| `XskSocket.XskSocketInfo.ProcessPacket` | advanced03-AF_XDP/af_xdp_user.c:273-337 | sends a packet if and only if it is an echo request and TX has room; the memory afterwards is that with the request answered in place, also if it could not be sent |
| `XskSocket.XskSocketInfo.HandlePacket` | advanced03-AF_XDP/af_xdp_user.c:375-376 | the packet is queued if replies are on, TX has room and its bytes are an echo request, and otherwise its frame is freed; the memory is rewritten as process_packet does |
| `XskSocket.XskSocketInfo.HandleAll` | advanced03-AF_XDP/af_xdp_user.c:370-379 | each of the n peeked packets is handled once, in order; as the object stays valid, each by the rule of EveryPacketHandled |
| `XskSocket.XskSocketInfo.CompleteTx` | advanced03-AF_XDP/af_xdp_user.c:229-253 | does nothing if outstanding_tx is zero; else frees every entry it peeks and releases them, and these are at least all that the ring showed before |
| `XskSocket.XskSocketInfo.HandleReceivePackets` | advanced03-AF_XDP/af_xdp_user.c:339-386 | a batch is a run of the machine and of the memory, interleaved with any kernel steps, that ends with nothing reserved or peeked; its user steps are peek, refill, one step for each packet, release, completions, in this order; it takes all packets the copy of the RX ring shows, or the ring if that is none, up to 64; the refill looks at the consumer index exactly if the copy shows fewer slots than frames on the stack, and reserves all slots then shown, so that none is shown afterwards; the completions collected are none if outstanding_tx is zero and else at least all that the ring showed; no step if RX was empty |
| `XskSocket.XskSocketInfo.EveryPacketHandled` | advanced03-AF_XDP/af_xdp_user.c:370-379 | whatever batches and kernel steps came before: every packet ever handled was sent if and only if replies were on, TX had room, and the packet that had been delivered in its chunk was an echo request; else its frame was freed |
| `XskSocket.XskSocketInfo.PacketsCounted` | advanced03-AF_XDP/af_xdp_user.c:328-382 | the counters of the object: tx_packets and outstanding_tx count the packets sent, rx_packets all packets |
| `XskSocket.XskSocketInfo.AlwaysSafe` | advanced03-AF_XDP/af_xdp_user.c:146-386 | the theorems about runs, for the real data after any number of batches: the whole invariant with the partition, pairwise different chunks in the stack array, no INVALID_UMEM_FRAME shown to the kernel if all reservations kept the bound, replies on or off, and in the UMEM buffer itself every frame queued or on its way out is the answer to the echo request delivered in its chunk |
| `XskSocket.XskSocketInfo.Play` | advanced03-AF_XDP/af_xdp_user.c:339-386 | any sequence of kernel steps between two steps of user space, with any bytes written into the chunks the kernel holds for receiving, leaves the user part of the state alone, and completions only accumulate |
| `XskMemory.StepIntact` | advanced03-AF_XDP/af_xdp_user.c:273-379 | one step of either side, the kernel writing only chunks it holds to receive packets in them: every packet not yet processed is still the one delivered in its chunk, and every frame in TX or on its way out is still the answer to the echo request delivered in its chunk |
| `XskMemory.AnswersAreSent` | advanced03-AF_XDP/af_xdp_user.c:273-379 | so at any time of any run, however user space and the kernel interleave, no later packet or reply has changed a byte of a queued answer |
| `XskMemory.PacketsHandled` | advanced03-AF_XDP/af_xdp_user.c:302-333 | and at any time a packet is sent if and only if replies are on, TX has room and the packet delivered in its chunk was an echo request |
| `XskMemory.SentKeepsValidity` | advanced03-AF_XDP/af_xdp_user.c:296-336 | a frame waiting to be sent is no echo request, and its ICMPv6 checksum is valid if and only if that of the request was |
| `OnesComplement.AddCharacterised` | advanced03-AF_XDP/af_xdp_user.c:255-261 | csum16_add is addition modulo 0xFFFF, and yields 0x0000 only from two zeros; this determines it |
| `OnesComplement.AddCommutes` | advanced03-AF_XDP/af_xdp_user.c:255-261 | commutative |
| `OnesComplement.AddAssociates` | advanced03-AF_XDP/af_xdp_user.c:255-261 | associative, bit for bit |
| `OnesComplement.AddCommutesWithSwap` | advanced03-AF_XDP/af_xdp_user.c:255-261 | commutes with byte swapping, section 2(B) of RFC 1071 |
| `OnesComplement.ReplaceCharacterised` | advanced03-AF_XDP/af_xdp_user.c:263-271 | csum_replace2 is equation 3 of RFC 1624, and when it yields 0xFFFF |
| `OnesComplement.ReplaceRoundTrip` | advanced03-AF_XDP/af_xdp_user.c:268-271 | replacing a word and putting it back restores the checksum if and only if it was not 0xFFFF |
| `OnesComplement.DecrementIsReplace` | packet-solutions/xdp_prog_kern_03.c:216-222 | for every TTL of at least 1, protocol and checksum, ip_decrease_ttl stores the value csum_replace2 gives for the TTL and protocol word, bit for bit |
| `OnesComplement.DecrementCharacterised` | packet-solutions/xdp_prog_kern_03.c:216-222 | what ip_decrease_ttl stores modulo 0xFFFF; it is never 0xFFFF |
| `OnesComplement.FoldHelperExact` | packet-solutions/xdp_prog_kern_03.c:33-36 | csum_fold_helper is the complemented full fold if and only if the halves add without carry |
| `OnesComplement.FoldHelperOffByOne` | packet-solutions/xdp_prog_kern_03.c:33-36 | otherwise it is too large by exactly one |
| `OnesComplement.ReplaceCommutesWithSwap` | advanced03-AF_XDP/af_xdp_user.c:263-271 | csum_replace2 on swapped words gives the swapped result, so it does not depend on the byte order |
| `InternetChecksum.FoldIsSum` | advanced03-AF_XDP/af_xdp_user.c:255-261 | folding words of any number with csum16_add gives their sum modulo 0xFFFF, and 0x0000 only for zeros |
| `InternetChecksum.WordAt` | advanced03-AF_XDP/af_xdp_user.c:255-271 | the words of a string of any length: one for every two bytes, in order, an odd last byte paired with zero |
| `InternetChecksum.FoldPermuted` | advanced03-AF_XDP/af_xdp_user.c:255-261 | in any order |
| `InternetChecksum.ChecksumByteOrder` | advanced03-AF_XDP/af_xdp_user.c:255-271 | hosts of either byte order compute the same two bytes, for strings of any length |
| `InternetChecksum.ValidByteOrder` | advanced03-AF_XDP/af_xdp_user.c:255-271 | and agree on which strings are valid |
| `InternetChecksum.ReceiverAccepts` | advanced03-AF_XDP/af_xdp_user.c:255-261 | a receiver that folds everything accepts exactly the strings that sum to zero modulo 0xFFFF, the all-zero one excepted |
| `InternetChecksum.FreshIffValid` | advanced03-AF_XDP/af_xdp_user.c:268-271 | the checksum field holds the recomputed value if and only if the string sums to zero and the field is not 0xFFFF |
| `InternetChecksum.PatchKeepsValidity` | advanced03-AF_XDP/af_xdp_user.c:268-271 | replacing any word at an even offset and patching with csum_replace2 keeps the sum modulo 0xFFFF, so the string is valid if and only if it was, for any length |
| `Router.IpDecreaseTtl` | packet-solutions/xdp_prog_kern_03.c:216-222 | stores the new checksum and TTL and changes nothing else |
| `Router.BuildQuery` | packet-solutions/xdp_prog_kern_03.c:257-290 | the lookup parameters are the header fields in host order |
| `Router.XdpRouter` | packet-solutions/xdp_prog_kern_03.c:226-318 | verdict and packet are those of Route, in place |
| `Router.VerdictAndBytes` | packet-solutions/xdp_prog_kern_03.c:237-316 | when each of the verdicts is given, as equivalences; PASS and DROP leave every byte unchanged, a forwarded packet carries the addresses of the lookup |
| `Router.HopKeepsValidity` | packet-solutions/xdp_prog_kern_03.c:293-302 | one hop takes one off the TTL, keeps all other bytes behind the MAC addresses but the checksum, and the header of any option length is valid afterwards if and only if it was before |
| `Router.HopChecksumIsFresh` | packet-solutions/xdp_prog_kern_03.c:216-222 | a valid header leaves with the checksum a recomputation would give, bit for bit |
| `Router.RouterRun` | packet-solutions/xdp_prog_kern_03.c:226-318 | over any sequence of redirecting hops through any tables: the TTL or hop limit falls by one for each, their number is at most the initial value minus one, other bytes are kept, and an IPv4 header of any option length keeps its validity |
| `Router.RouteByteOrder` | packet-solutions/xdp_prog_kern_03.c:226-318 | verdict and bytes do not depend on the byte order of the router |
| `RouterFields.RouteIpv4` | packet-solutions/xdp_prog_kern_03.c:226-318 | for an IPv4 packet with any header fields and any bytes behind them: at a TTL of at most 1 it is passed on; else the table is asked about exactly its tos, protocol, total length, source and destination, and a packet that is forwarded is the one with the addresses of the reply, the TTL one less, the checksum raised by 0x0100 with end-around carry, and all else equal |
| `RouterFields.RouteIpv6` | packet-solutions/xdp_prog_kern_03.c:226-318 | likewise for IPv6: flow information, next header, payload length, source and destination; the hop limit is one less |
| `IpHeaders.Ipv4Packet` | packet-solutions/xdp_prog_kern_03.c:244-266 | every packet that starts with the IPv4 type and holds a fixed header is such a packet, so the theorem speaks of all of them |
| `IpHeaders.Ipv6Packet` | packet-solutions/xdp_prog_kern_03.c:267-290 | likewise for IPv6 |
| `IpHeaders.FlowInfoValue` | packet-solutions/xdp_prog_kern_03.c:279 | the flow information asked about is the number 2^20 * traffic class + flow label in network order, the version masked out |
| `IpHeaders.CoveredOnPacket` | advanced03-AF_XDP/af_xdp_user.c:296-314 | what an ICMPv6 checksum covers, field by field: addresses, payload length and next header 58 as in section 8.1 of RFC 8200, and as much of the payload as the length says |
| `SwapHelpers.SwapSrcDstMac` | common/rewrite_helpers.h:113-120 | in place, the two addresses are exchanged and nothing else changes |
| `SwapHelpers.SwapSrcDstIpv6` | common/rewrite_helpers.h:125-131 | likewise |
| `SwapHelpers.SwapSrcDstIpv4` | common/rewrite_helpers.h:136-142 | likewise |
| `SwapHelpers.ExchangedAt` | common/rewrite_helpers.h:113-142 | where each byte goes |
| `SwapHelpers.ExchangedTwice` | common/rewrite_helpers.h:113-142 | swapping twice is the identity |
| `SwapHelpers.ExchangeKeepsSum` | common/rewrite_helpers.h:125-142 | the swap changes no word sum over a region that contains both addresses |
| `EchoReply.CsumReplaceField` | advanced03-AF_XDP/af_xdp_user.c:268-271 | replaces the checksum field by the patched value |
| `EchoReply.CheckEcho` | advanced03-AF_XDP/af_xdp_user.c:296-300 | true exactly for the frames to answer |
| `EchoReply.RequestOnPacket` | advanced03-AF_XDP/af_xdp_user.c:296-300 | an IPv6 packet given by its fields is answered if and only if its next header is 58 and its payload has at least eight bytes and starts with 128 |
| `EchoReply.RequestIsPacket` | advanced03-AF_XDP/af_xdp_user.c:296-300 | and no other bytes are |
| `EchoReply.RewriteEcho` | advanced03-AF_XDP/af_xdp_user.c:296-314 | the frame in the UMEM area is replaced by its answer if it is an echo request, else nothing changes |
| `EchoReply.RewrittenInside` | advanced03-AF_XDP/af_xdp_user.c:302-314 | no byte outside the frame changes |
| `EchoReply.ReplyCheckAnyCode` | advanced03-AF_XDP/af_xdp_user.c:312-314 | passing type words with a zero code gives the same checksum as the true words |
| `EchoReply.AnswerKeepsValidity` | advanced03-AF_XDP/af_xdp_user.c:296-314 | for payloads of any length and any code: MAC and IPv6 addresses change places, the type becomes 129, all other bytes but the checksum are the same, the sum that the checksum with pseudo-header covers stays the same modulo 0xFFFF, so the reply is valid if and only if the request was; the reply is not answered again |
| `EchoReply.AnswerChecksumIsFresh` | advanced03-AF_XDP/af_xdp_user.c:312-314 | the checksum of the reply is the recomputed one if and only if the request was valid |
| `EchoReply.AnswerByteOrder` | advanced03-AF_XDP/af_xdp_user.c:296-314 | the reply on the wire is the same, bit for bit, on either byte order |
| `IcmpEcho.XdpIcmpEcho` | packet-solutions/xdp_prog_kern_03.c:58-147 | verdict and packet are those of FindEcho and EchoAnswer, in place, for any bpf_csum_diff; a packet that is passed on is unchanged |
| `IcmpEcho.FoundExactly` | packet-solutions/xdp_prog_kern_03.c:77-109 | for every byte string: what the parsers find is the echo request that, read declaratively, lies behind the tags, within the buffer, with four bytes of ICMP header, short IPv4 headers of two words and more included, or nothing |
| `IcmpEcho.RequestFound` | packet-solutions/xdp_prog_kern_03.c:77-109 | on a serialised frame the program answers exactly the echo requests of its own IP version behind at most four tags, and finds both headers where they were written |
| `IcmpEcho.PatchExact` | packet-solutions/xdp_prog_kern_03.c:115-120 | patching any message adds the carry of the helper result to its sum modulo 0xFFFF; so a valid one gives a valid one if and only if the halves add without carry |
| `IcmpEcho.AlternativeAgrees` | packet-solutions/xdp_prog_kern_03.c:122-141 | the formula in the comment agrees modulo 0xFFFF with the code if and only if there is no carry |
| `IcmpEcho.DiffsKeepPromise` | packet-solutions/xdp_prog_kern_03.c:45-54 | the promise of bpf_csum_diff can be kept, with a folded result and with one whose halves carry |
| `IcmpEcho.CarryPossible` | packet-solutions/xdp_prog_kern_03.c:45-54 | every residue has a result that carries |
| `IcmpEcho.PromiseUndecided4` | packet-solutions/xdp_prog_kern_03.c:97-120 | for every valid well-formed ICMP request, one helper that keeps the promise makes a valid reply and another an invalid one |
| `IcmpEcho.PromiseUndecided6` | packet-solutions/xdp_prog_kern_03.c:97-120 | the same for ICMPv6 |
| `IcmpEcho.FoldedNeverCarries` | packet-solutions/xdp_prog_kern_03.c:45-54 | a result below 2^16 never carries |
| `IcmpEcho.Answer4Exact` | packet-solutions/xdp_prog_kern_03.c:97-120 | a well-formed ICMP request of any length, valid or not: MAC and IPv4 addresses change places, the type becomes 0, the IPv4 header keeps its word sum and its other bytes, the rest of the message is kept, the carry is added to the sum of the message, and a valid one gives a valid reply if and only if there is no carry |
| `IcmpEcho.Answer4Bytes` | packet-solutions/xdp_prog_kern_03.c:97-120 | byte by byte for every request found, a header length of two to four words included: where each byte of the answer comes from, the patched four apart |
| `IcmpEcho.Answer6Exact` | packet-solutions/xdp_prog_kern_03.c:97-120 | the same for ICMPv6 with type 129, whose checksum also covers the swapped addresses |
| `IcmpEcho.AnswerNotAnswered` | packet-solutions/xdp_prog_kern_03.c:58-147 | the answer to any packet is never answered, malformed headers included |
| `EndAroundDiff.EndAroundKeepsPromise` | packet-solutions/xdp_prog_kern_03.c:45-54 | the 32-bit sum of seed, complemented old and new words with end-around carry keeps the promise of bpf_csum_diff |
| `EndAroundDiff.ReplyValid4` | packet-solutions/xdp_prog_kern_03.c:97-120 | with that helper the reply to a valid well-formed ICMP request is valid if and only if the checksum field of the request, read natively, is below 0xFFF7 on a little-endian host, from 0xF7FF to 0xFFFE on a big-endian one |
| `EndAroundDiff.ReplyValid6` | packet-solutions/xdp_prog_kern_03.c:97-120 | with that helper the reply to a valid ICMPv6 request is always valid on a little-endian host, and on a big-endian one if and only if the checksum field is above 0x00FF |
| `Parsing.HdrCursor.ParseEthhdr` | common/parsing_helpers.h:73-110 | the value, the header and the cursor of the tag walk; on failure -1 and the cursor unmoved |
| `Parsing.HdrCursor.ParseEthhdrVlan` | packet-solutions/xdp_vlan02_kern.c:19-61 | always the type and cursor of the plain parser with depth 10; the array receives the recorded words of exactly the tags skipped |
| `Parsing.RecordedOnFrame` | packet-solutions/xdp_vlan02_kern.c:52-54 | on a serialised frame the word recorded for tag k is that of tag k, as a native load sees it, masked with 0x0FFF |
| `Parsing.HdrCursor.ParseIp6hdr` | common/parsing_helpers.h:112-129 | next header and cursor, or -1 |
| `Parsing.HdrCursor.ParseIphdr` | common/parsing_helpers.h:131-154 | protocol and cursor as the length field says, or -1 |
| `Parsing.HdrCursor.ParseIcmp` | common/parsing_helpers.h:156-199 | type and cursor, or -1, for the three header sizes |
| `Parsing.WalkExact` | common/parsing_helpers.h:93-109 | the loop stops behind k tags if and only if, read declaratively, k tags precede the payload, within the buffer and the depth; the cursor has moved by 14 + 4k and the type is the k-th one |
| `Parsing.DepthRefines` | packet-solutions/xdp_vlan02_kern.c:10-11 | if a walk of depth d ends on a type that is no tag, every deeper walk has the same type and cursor, so the depths 4 and 10 agree there |
| `Parsing.ShortIpv4HeaderAccepted` | common/parsing_helpers.h:141-148 | a header shorter than twenty bytes is accepted if and only if its length field is 2, 3 or 4 and twenty bytes are present |
| `Parsing.WalksInside` | common/parsing_helpers.h:73-199 | no parser moves the cursor behind data_end, and each moves it forward |
| `Parsing.WalkOnFrame` | common/parsing_helpers.h:93-109 | on a serialised frame with any number of tags a walk of any depth ends behind all of them, or behind as many as its depth with the type of the next |
| `Parsing.SerialiseThenParse` | common/parsing_helpers.h:73-199 | any frame with up to four tags of either type, IPv4 with any options or plain IPv6, an ICMP header and a payload is parsed back to its EtherType, protocol and ICMP type, with the cursor exactly behind the ICMP header |
| `EchoVerdict.XdpParserFunc` | packet02-rewriting/xdp_prog_kern.c:95-151 | for every byte string: DROP if and only if, read declaratively, an ICMP or ICMPv6 echo request with an even sequence number lies behind the tags, in bounds; else PASS |
| `EchoVerdict.VerdictOnFrame` | packet02-rewriting/xdp_prog_kern.c:95-151 | any serialised frame, of any number of tags, protocol and ICMP type, is dropped if and only if it has at most four tags and holds an echo request of its own IP version with an even sequence number |
| `VlanRewrite.XdpMd.AdjustHead` | common/rewrite_helpers.h:47-49 | what is assumed of bpf_xdp_adjust_head: it moves the head or refuses and changes nothing |
| `VlanRewrite.XdpMd.VlanTagPop` | common/rewrite_helpers.h:22-64 | on success returns the tag word and the packet is the one without the tag; on -1 packet and head are unchanged; after a granted move the second bounds check cannot fail |
| `VlanRewrite.XdpMd.VlanTagPush` | common/rewrite_helpers.h:69-108 | on success the packet is the one with the tag inserted, the tag word being the low sixteen bits of the argument; on -1 nothing changed; the two later checks cannot fail |
| `VlanRewrite.XdpMd.XdpVlanSwap` | packet-solutions/xdp_prog_kern_02.c:71-92 | pops the outermost tag if there is one, else pushes tag 1, as the kernel grants |
| `VlanRewrite.PopInBuffer` | common/rewrite_helpers.h:44-61 | copying the header inside one buffer, over the tag it overlaps, gives the packet without the tag |
| `VlanRewrite.PushInBuffer` | common/rewrite_helpers.h:93-106 | likewise for the push |
| `VlanRewrite.PopTagged` | common/rewrite_helpers.h:22-64 | a packet of MAC addresses, a tag of either type and a rest can be popped if and only if the rest has two bytes; the word is that of the tag, and without it the packet is MAC addresses and rest |
| `VlanRewrite.PoppableIsTagged` | common/rewrite_helpers.h:30-38 | and nothing else can be popped |
| `VlanRewrite.SwapTagged` | packet-solutions/xdp_prog_kern_02.c:71-92 | the swap of a tagged packet, as granted, takes off the tag, of either type, and moves the head by four; cut off in front of the inner type the packet stays as it is |
| `VlanRewrite.SwapUntagged` | packet-solutions/xdp_prog_kern_02.c:71-92 | the swap of an untagged packet puts the bytes 81 00 00 01 behind the MAC addresses |
| `VlanRewrite.PopAfterPush` | common/rewrite_helpers.h:22-108 | pop after push returns the tag word and restores the exact packet |
| `VlanRewrite.PushAfterPop` | common/rewrite_helpers.h:22-108 | push of the popped word restores the packet if and only if the outer type was 0x8100; else only the type differs |
| `VlanRewrite.SwapTwice` | packet-solutions/xdp_prog_kern_02.c:71-92 | two swaps of an untagged packet restore it unless exactly one of the head adjustments succeeded |
| `VlanRewrite.ParsePushed` | common/rewrite_helpers.h:93-107 | the parser sees a pushed tag first: same type, four bytes further, one depth used |
| `JenkinsHash.Jhash` | headers/jhash.h:68-105 | the loop and the fall-through switch compute the byte-wise hash, for any length below 2^32 |
| `JenkinsHash.Jhash2` | headers/jhash.h:114-142 | likewise for words, the byte length taken modulo 2^32 |
| `JenkinsHash.Jhash3Words` | headers/jhash.h:157-160 | equals jhash2 on three words |
| `JenkinsHash.Jhash2Words` | headers/jhash.h:162-165 | equals jhash2 on two words |
| `JenkinsHash.Jhash1Word` | headers/jhash.h:167-170 | equals jhash2 on one word |
| `JenkinsVectors.KnownHash` | headers/jhash.h:33-105 | the published value: the 30 bytes of Four score and seven years ago hash to 0x17770551 with initval 0, and b ends as 0xce7226e6; this depends on every rotation, on the order of all steps, on the order of the bytes and on the initial value |
| `JenkinsHash.LoadIsLittleEndian` | headers/jhash.h:78-80 | the digits of a loaded word in base 256, lowest first, are the bytes in memory order |
| `JenkinsHash.StartIsSum` | headers/jhash.h:74 | a, b and c begin as 0xdeadbeef + length + initval modulo 2^32 |
| `JenkinsHash.JhashIsJhash2` | headers/jhash.h:68-142 | the byte-wise hash of a word array in little-endian memory is the word-wise hash, for every length and initval |
| `JenkinsHash.UnmixMix` | headers/jhash.h:33-41 | __jhash_mix is injective: Unmix undoes it |
| `JenkinsHash.MixUnmix` | headers/jhash.h:33-41 | and surjective |
| `JenkinsHash.UnfinalFinal` | headers/jhash.h:43-52 | __jhash_final is injective |
| `JenkinsHash.FinalUnfinal` | headers/jhash.h:43-52 | and surjective |
| `JenkinsHash.OneBlockSeparates` | headers/jhash.h:74-102 | two keys of the same length that differ in exactly one 12-byte block, the partial last one included, never end in the same (a, b, c) |
| `JenkinsHash.OneBlockSeparatesRounds` | headers/jhash.h:77-84 | after n rounds their states agree if and only if the block has not been read |
| `Word32.RolIsTimes` | headers/jhash.h:25-28 | rol32 is multiplication by the power of two modulo 2^32 - 1, and zero only for zero, which determines it, a shift of zero included |
| `Word32.RolBack` | headers/jhash.h:25-28 | rotating by 32 - shift gives the word back |
| `Word32.Xor32Bit` | headers/jhash.h:33-52 | bit i of the exclusive or is the sum of the bits i modulo 2, for all words |
| `NativeXor.Xor32Bytes` | headers/jhash.h:33-52 | for all words the exclusive or is that of the bit vectors of their bytes |
| `JenkinsHash.JhashMix` | headers/jhash.h:33-41 | the assignments of __jhash_mix, one after the other, compute Mix |
| `JenkinsHash.JhashFinal` | headers/jhash.h:43-52 | those of __jhash_final compute Final |
| `StatsReader.World.RecordAction` | common/xdp_stats_kern.h:23-42 | one packet more and its length, on one CPU, for one action, whose total over all CPUs rises by exactly that; all other records stay; an unknown action changes nothing |
| `StatsReader.World.Lookup` | basic-solutions/xdp_stats.c:143-147 | the values of the CPUs are read one after the other while the counters go on; each lies between its values at the start and at the end |
| `StatsReader.World.MapGetValuePercpuArray` | basic-solutions/xdp_stats.c:134-156 | the 64-bit sum of one value for each CPU, of a total between the true totals before and after |
| `StatsReader.World.StatsCollect` | basic-solutions/xdp_stats.c:184-193 | one such reading for each action |
| `StatsReader.World.StatsPrint` | basic-solutions/xdp_stats.c:95-119 | one line for each action, explained by the two readings it was given |
| `StatsReader.World.StatsPoll` | basic-solutions/xdp_stats.c:195-225 | all lines are of the map the session was started on, one for each action in turn, and each starts from the reading at which the line a round earlier ended; polling ends early only when another map is pinned, and prints nothing if that was so from the start |
| `StatsReader.World.Run` | basic-solutions/xdp_stats.c:268-292 | over any interleaving with counter updates and loaders that replace the pinned map, every line ever printed is explained by two readings of one map, and the lines are those of one session after the other; each session is of a map pinned during the run, has a line for each action a round, and has fewer rounds than allowed only because its map is no longer pinned |
| `StatsReader.World.Interfere` | basic-solutions/xdp_stats.c:208-217 | any sequence of counter updates and re-pins: counts only grow, and a map once replaced is never pinned again |
| `StatsReader.LineIsGrowth` | basic-solutions/xdp_stats.c:110-113 | such a line never shows a negative difference: it lies between differences of true totals |
| `StatsReader.TotalOfZeros` | basic-solutions/xdp_stats.c:149-153 | the total of zero records is zero |
| `StatsReader.TotalUpdated` | basic-solutions/xdp_stats.c:149-153 | replacing the record of any CPU changes the total by the difference, packets and bytes each: every CPU counts exactly once |
| `StatsReader.KeysAreVerdicts` | common/xdp_stats_kern_user.h:15 | the keys below XDP_ACTION_MAX are the codes of the five verdicts, each of one |
| `StatsReader.PrintedAddsUp` | basic-solutions/xdp_stats.c:205-220 | the packets and bytes printed for one action in a session add up to the growth between its first and its last reading |
| `StatsReader.RunAddsUp` | basic-solutions/xdp_stats.c:268-292 | the same for each session of the loop of main |
| `StatsReader.RoundsComparable` | basic-solutions/xdp_stats.c:205-220 | two consecutive collections of one session are comparable: the second began after the first had ended |

## Left out

- XskSocket.XskSocketInfo.AlwaysSafe: the packet counters are unbounded numbers here, not 64-bit ones, and rx_bytes, tx_bytes and timestamps are not modelled.
- XskSocket.XskSocketInfo.HandleReceivePackets: the retry loop of lines 358 to 361 is an assertion that its guard is false, and idx_fq++, idx_rx++ and idx_cq++ are written as the start index plus the iteration number, in 32-bit arithmetic.
- XskSocket.XskSocketInfo.Interleave: the kernel acts between the user's ring operations, not in the middle of one; memory barriers are not modelled.
- XskSocket.XskSocketInfo.constructor: socket and UMEM creation, and with them the rings' initial state, are given; only the stack is filled.
- VlanRewrite.XdpMd.VlanTagPop: the second bounds check is an assertion that it cannot fail; so are the two of VlanTagPush.
- StatsReader.World.Lookup: a failing lookup, which leaves the value unset, and maps that are not per-CPU are not modelled.
- StatsReader.World.StatsPrint: a line is the growth of the counters; the running totals printed beside it, the early return for a zero period, the rates and the clock are not modelled.
- StatsReader.World.StatsPoll: it runs for a given number of rounds, where the program polls forever.
- Router.XdpRouter: the counter update in xdp_stats_record_action at the end of the program is modelled in StatsReader only; the same holds for the other programs. A failure of its lookup is not modelled.
- JenkinsHash.OneBlockSeparates: nothing is claimed about the 32-bit hash value itself, which can collide.
- parse_udphdr, parse_tcphdr, xdp_patch_ports_func and the two redirect programs: they would only add easy members, and the port rewriting keeps no checksum.
- xdp_vlan01 and xdp_vlan02 main programs: a parse and a look at a type; their parsers are modelled.
- The main loop, poll and statistics thread of the AF_XDP program, loaders, command lines, maps and pinning, tracing programs, and the unfinished assignment files: plumbing without an algorithm.
