# Verified model of the course router and datagram sender

A Dafny 4.11 model of four parts of this repository, with proofs of what each is for.

* **SHA-1** (`Sha1Spec`, `Sha1Example`, `Sha1`, `Sha1Runs`). `Sha1Spec` is FIPS PUB 180-1, sections 2 to 7, on whole
  messages. `Sha1.Context` is the streaming context of `sha1.c`, updated in place; however a message is cut
  into `Input` calls, the result is the digest of the concatenation. Octets and words are bit vectors, the two
  halves of the bit counter are integers reduced modulo 2^32.
* **Internet checksum** (`Bytes`, `Checksum`, `ChecksumProofs`, `IpFrame`). `cksum` against RFC 1071,
  `validate_checksum` against the RFC 1071 receiver's rule, the rewriting of a forwarded frame against RFC 1624.
  Host byte order is a parameter; everything holds for both orders.
* **Router** (`Chain`, `Masks`, `Topology`, `ArpTable`, `ArpQueue`, `ArpCache`, `RouterSpec`, `RouterInvariants`,
  `RouterRuns`, `RouterHistory`, `RouterReplies`, `RouterFates`, `RouterTheorems`, `Router`, `RouterProgram`). `ArpCache.Cache` is the
  entry array and the linked list of requests with their packet lists; `Router.Instance` forwards frames, drains replies
  and sweeps. Each of its three entry points is one step of the state machine of `RouterSpec`, and
  `RouterProgram.Serve` carries the theorems, which are about every sequence of such steps from the start, over to
  the heap. That a step is atomic is an assumption: the timeout turn holds the cache lock throughout
  (`sr_arpcache.c:244-257`), frames and replies only inside each call of the cache. So is a routing table that passed
  its start-up check, which `Router.Instance.Valid` demands: on others the theorems are about the state machine only,
  where a route without its interface is no route, while the code follows a null pointer (`sr_ip.c:119-122`).
  Clocks are parameters that never go back; what is sent is appended to a history variable, with the frame that
  caused it.
* **Congestion control** (`Aimd`, `Throughput`, `Sender`). The two controllers and the sender's accounting.
  Floating point is exact reals, truncated where the code assigns to an integer type.

`dafny verify dfyconfig.toml` checks the whole project. A lemma that Dafny would try to prove by an induction of its
own carries `{:induction false}`: every induction is written out.

## Where the code departs from its documentation

* `handle_arpreq` should answer every packet of an exhausted request (`sr_arpcache.h:28-31`). The loop at
  `sr_arp.c:93-97` never moves to the next packet: with two or more packets it does not end, with one it answers
  nobody. `RouterTheorems.AnswerLoopMeetsProtocolExactly` says it does its job exactly when no packet waits. Lines 108
  and 109 then write to the request destroyed at line 100. `Router.Instance.HandleReq` follows the documented protocol.
* `sr_arpcache_sweepreqs` (`sr_arpcache.c:20-32`) reads the next pointer after handling, although handling may free
  the request, and uses the route of the first request for all of them, passing an address where a header is expected.
  `Router.Instance.SweepReqs` saves the pointer first, as `sr_arpcache.h:61-63` asks, and routes each request by its
  own address. `RouterTheorems.WrittenSweepMeetsProtocolExactly` says on which queues the loop as written does the
  same, taking that address for the header and the documented handling of each request.
* Sends are documented as one a second; `difftime(now, sent) > 1.0` on whole seconds means at least two apart.
* `longest_prefix_sum` never reads a mask: it is the first exact match. `Topology.ScanIsRightExactly` says on which
  tables that is longest-prefix matching, for any masks a table may hold. If no route but a host route matches few
  enough addresses for the table to spell them out, those are the tables of host routes
  (`Topology.ScanNeedsHostRoutes`); `Topology.LoneDefaultRoute` is the smallest failure.
* `sr_arpcache_lookup` returns the match in the highest slot, which need not be the newest:
  `RouterTheorems.NewestMappingMayLose` is a run, `ArpTable.NewestIsFoundExactly` the exact condition.

## Model

| member | source | states |
|---|---|---|
| `Sha1.Context.ProcessMessageBlock` | 20100117_RouterAssign_1/router/sha1.c:207-301 | the four unrolled loops compute the one recursive compression function of FIPS PUB 180-1, for every chaining value and block |
| `Sha1.Context.ExpandSchedule` | 20100117_RouterAssign_1/router/sha1.c:221-235 | packing and in-place expansion give the 80 words of the message schedule |
| `Sha1.NextRound` | 20100117_RouterAssign_1/router/sha1.c:243-287 | one pass of a round loop, with shift-and-mask rotation, is one round of the specification |
| `Sha1.Context.PadMessage` | 20100117_RouterAssign_1/router/sha1.c:326-371 | from any buffered state, padding leaves the digest of everything absorbed |
| `Sha1.Context.InputOctet` | 20100117_RouterAssign_1/router/sha1.c:158-184 | one octet taken up: buffer, chaining value and counter stand for one octet more |
| `Sha1.Context.CountOctet` | 20100117_RouterAssign_1/router/sha1.c:163-176 | the split counter is eight times the octets, and corrupts the context exactly at 2^64 bits |
| `Sha1.Context.Input` | 20100117_RouterAssign_1/router/sha1.c:143-185 | takes up the octets to the limit; an empty input does nothing, a nonempty one after a result corrupts |
| `Sha1.Context.Result` | 20100117_RouterAssign_1/router/sha1.c:104-119 | refused exactly when corrupted; otherwise the digest of what was absorbed; repeating it changes no field |
| `Sha1.Context.Reset` | 20100117_RouterAssign_1/router/sha1.c:71-85 | a fresh stream, whatever the context held |
| `Sha1.Context.IndexIsRemainder` | 20100117_RouterAssign_1/router/sha1.c:160-181 | before a result the index is the octet count modulo 64 and the counter eight times that count |
| `Sha1Runs.HashInPieces` | 20100117_RouterAssign_1/router/sha1.c:71-185 | reset, any inputs, result: the digest of the concatenation, refused exactly if it reaches 2^64 bits |
| `Sha1Runs.SaltedDigest` | 20100117_RouterAssign_1/router/sr_vns_comm.c:272-279 | the authentication reply hashes salt followed by key |
| `Sha1Runs.Perform` | 20100117_RouterAssign_1/router/sha1.c:71-185 | any sequence of calls, on a context in use or beginning with a reset, takes it through exactly the run of streams that the next four rows speak of |
| `Sha1Runs.Corruption` | 20100117_RouterAssign_1/router/sha1.c:104-185 | over every sequence of calls since a reset: corrupted exactly by too much input before a result or any after one; otherwise exactly what was given |
| `Sha1Runs.CorruptionLasts` | 20100117_RouterAssign_1/router/sha1.c:107-110 | corruption stays until the next reset |
| `Sha1Runs.ResetForgets` | 20100117_RouterAssign_1/router/sha1.c:71-85 | nothing before a reset matters after it |
| `Sha1Runs.ResultRepeats` | 20100117_RouterAssign_1/router/sha1.c:112-118 | any number of further results changes nothing |
| `Sha1Example.DigestOfAbc` | 20100117_RouterAssign_1/router/sha1.c:207-301 | the worked example of Appendix A of FIPS PUB 180-1: the digest of "abc", through every word of the schedule and every round |
| `Sha1Spec.PadInOneBlock` | 20100117_RouterAssign_1/router/sha1.c:349-370 | an index of at most 55 is completed by one block ending in the bit count |
| `Sha1Spec.LengthFieldReads` | 20100117_RouterAssign_1/router/sha1.c:358-368 | the length field is any 64-bit number of bits, most significant octet first: written from the number that eight octets spell, it is those octets |
| `Sha1Spec.PadInTwoBlocks` | 20100117_RouterAssign_1/router/sha1.c:334-348 | a greater index spills into a second block |
| `Sha1Spec.PaddingSpills` | 20100117_RouterAssign_1/router/sha1.c:334-356 | the padding ends a block, one block up to index 55 and two beyond |
| `Sha1Spec.UnpadInvertsPad` | 20100117_RouterAssign_1/router/sha1.c:308-313 | every message can be read back from its padded form |
| `Sha1Spec.PadIsInjective` | 20100117_RouterAssign_1/router/sha1.c:308-313 | different messages have different padded forms |
| `Sha1Spec.HashBlocksAppend` | 20100117_RouterAssign_1/router/sha1.c:178-181 | hashing blocks in two parts is hashing them together |
| `Checksum.ComputeCksum` | 20100117_RouterAssign_1/router/sr_utils.c:8-20 | for any length, on either host byte order, the loops return the converted complement of the folded 32-bit sum, and end |
| `Checksum.FoldOnce` | 20100117_RouterAssign_1/router/sr_utils.c:16-17 | a fold decreases the sum and keeps its one's-complement value |
| `ChecksumProofs.OnesSumIsFoldedSum` | 20100117_RouterAssign_1/router/sr_utils.c:12-17 | deferring the carries gives the RFC 1071 one's-complement sum, odd lengths included |
| `ChecksumProofs.SafeLengthIsExact` | 20100117_RouterAssign_1/router/sr_utils.c:10-15 | 131074 bytes is the exact length up to which no input overflows the accumulator |
| `ChecksumProofs.CksumIsRfc1071Exactly` | 20100117_RouterAssign_1/router/sr_utils.c:8-20 | for every buffer an int length allows: the RFC 1071 checksum, zero as 0xffff, exactly if the sum fits 32 bits |
| `ChecksumProofs.CksumIsRfc1071` | 20100117_RouterAssign_1/router/sr_utils.c:8-20 | so always up to 131074 bytes |
| `ChecksumProofs.ValidatesExactly` | 20100117_RouterAssign_1/router/sr_ip.c:168-181 | accepted exactly if the RFC 1071 receiver accepts and the stored field is not zero |
| `ChecksumProofs.FilledHeaderValidates` | 20100117_RouterAssign_1/router/sr_ip.c:132-133 | a field filled by cksum over the zeroed field always validates |
| `ChecksumProofs.OneWordChange` | 20100117_RouterAssign_1/router/sr_ip.c:169-176 | changing one other word of a valid header is noticed unless it swaps 0x0000 and 0xffff |
| `ChecksumProofs.RecomputedIsRfc1624` | 20100117_RouterAssign_1/router/sr_ip.c:131-133 | recomputing after one word changed is equation 3 of RFC 1624, with zero as 0xffff |
| `IpFrame.ValidateChecksum` | 20100117_RouterAssign_1/router/sr_ip.c:163-183 | 0 and the frame unchanged, or 1 and the field left zeroed |
| `IpFrame.RewriteForHop` | 20100117_RouterAssign_1/router/sr_ip.c:122-133 | the in-place rewriting of a forwarded frame |
| `IpFrame.DestinationBytes` | 20100117_RouterAssign_1/router/sr_ip.c:60-63 | the destination is the four bytes at 30 to 33, most significant first |
| `IpFrame.RewrittenChangesOnly` | 20100117_RouterAssign_1/router/sr_ip.c:122-133 | hosts in their places, time to live one less, every byte outside those and the checksum as it was |
| `IpFrame.RewrittenIsValid` | 20100117_RouterAssign_1/router/sr_ip.c:131-133 | the rewritten header is accepted by the code and the RFC receiver, and agrees with RFC 1624 |
| `Chain.List.Append` | 20100117_RouterAssign_1/router/sr_if.c:73-92 | appending at the end keeps every earlier element |
| `Topology.GetInterface` | 20100117_RouterAssign_1/router/sr_if.c:37-55 | the first interface whose name agrees in the first 32 characters, or none |
| `Topology.SameNameExactly` | 20100117_RouterAssign_1/router/sr_if.c:49-49 | two names are the same exactly if, up to the first place where one differs or ends, their characters agree in the first 32 places |
| `Topology.FoundInterfaceIsFirst` | 20100117_RouterAssign_1/router/sr_if.c:37-55 | the interface found is the first whose name agrees so; none is found exactly if none does |
| `Topology.InterfaceWithIp` | 20100117_RouterAssign_1/router/sr_ip.c:20-35 | the first interface with the address, or none |
| `Topology.FoundByIpIsFirst` | 20100117_RouterAssign_1/router/sr_ip.c:20-35 | the interface found is the first that has the address; none is found exactly if none has it |
| `Topology.AddInterface` | 20100117_RouterAssign_1/router/sr_if.c:65-93 | a new last interface with the name cut to 32 characters |
| `Topology.NameIsKept` | 20100117_RouterAssign_1/router/sr_if.c:79-90 | the name a record is given is the start of the one it is added under, at most 32 characters, and agrees with it |
| `Topology.SetEtherAddr` | 20100117_RouterAssign_1/router/sr_if.c:103-117 | only the last interface's hardware address changes |
| `Topology.SetEtherIp` | 20100117_RouterAssign_1/router/sr_if.c:127-141 | only the last interface's address changes |
| `Topology.LongestPrefixSum` | 20100117_RouterAssign_1/router/sr_ip.c:60-87 | the first route whose destination is the address, or none |
| `Topology.VerifyRoutingTable` | 20100117_RouterAssign_1/router/sr_main.c:269-303 | the number of routes whose interface is missing, or 999 if a list is empty; zero exactly if neither list is empty and every route names an interface that is found |
| `Topology.NoneMissing` | 20100117_RouterAssign_1/router/sr_main.c:283-302 | zero is returned exactly if every route names an interface that is found |
| `Topology.VerifiedLookupsResolve` | 20100117_RouterAssign_1/router/sr_main.c:258-266 | after that every route lookup names a found interface, the same one whatever is appended later |
| `Topology.ScanOnHostRoutes` | 20100117_RouterAssign_1/router/sr_ip.c:70-85 | on a table of host routes the scan is longest-prefix matching |
| `Topology.PrefixMatch` | 20100117_RouterAssign_1/router/sr_rt.c:70-82 | a route matches the addresses that agree with it in the bits of its mask; under a prefix mask those are the addresses of its block |
| `Topology.ScanIsRightExactly` | 20100117_RouterAssign_1/router/sr_ip.c:70-85 | on any table, with any masks, the scan is longest-prefix matching for every address exactly if all a route matches is spelled out address by address and the first route for a destination is the most specific one that matches it |
| `Topology.ScanNeedsHostRoutes` | 20100117_RouterAssign_1/router/sr_ip.c:70-85 | if every other route matches more addresses than the table has routes: exactly if all masks are 255.255.255.255 |
| `Topology.DefaultRouteIsMissed` | 20100117_RouterAssign_1/router/sr_ip.c:70-85 | on a table of fewer than 2^32 routes with a default route, some address has a match and the scan finds none |
| `Topology.LoneDefaultRoute` | 20100117_RouterAssign_1/router/sr_ip.c:70-85 | the smallest case |
| `ArpTable.LookupFindsHighest` | 20100117_RouterAssign_1/router/sr_arpcache.c:43-48 | a lookup hits exactly if a valid entry matches, and returns the one in the highest slot |
| `ArpTable.StoreKeepsFaithful` | 20100117_RouterAssign_1/router/sr_arpcache.c:136-147 | an insertion keeps the table in step with the log of insertions |
| `ArpTable.ExpireKeepsFaithful` | 20100117_RouterAssign_1/router/sr_arpcache.c:246-253 | an expiry pass drops exactly what is older than 15 seconds |
| `ArpTable.LookupAfterStore` | 20100117_RouterAssign_1/router/sr_arpcache.c:136-147 | after an insertion the address is known, unless the table was full and had no entry for it |
| `ArpTable.NewestIsFoundExactly` | 20100117_RouterAssign_1/router/sr_arpcache.c:43-48 | a lookup after an insertion gives the new entry exactly if it found a slot above every valid entry for its address, or an equal entry was found before |
| `ArpQueue.EnqueueKeepsOthers` | 20100117_RouterAssign_1/router/sr_arpcache.c:76-102 | one request gains one packet at its front; every other request, and their order, stays |
| `ArpQueue.EnqueueAddsOne` | 20100117_RouterAssign_1/router/sr_arpcache.c:91-102 | exactly one packet more is waiting |
| `ArpCache.Cache.LookupEntry` | 20100117_RouterAssign_1/router/sr_arpcache.c:38-60 | the table's lookup |
| `ArpCache.Cache.ExpireEntries` | 20100117_RouterAssign_1/router/sr_arpcache.c:246-253 | the expiry of every entry, in place |
| `ArpCache.Cache.QueueReq` | 20100117_RouterAssign_1/router/sr_arpcache.c:68-107 | the heap list keeps its shape and holds the queue with the packet added; returns its request |
| `ArpCache.Cache.Insert` | 20100117_RouterAssign_1/router/sr_arpcache.c:113-152 | the matching request, with its packets, leaves the list and is returned; the mapping takes the first free slot |
| `ArpCache.Cache.TakeRequest` | 20100117_RouterAssign_1/router/sr_arpcache.c:119-134 | exactly one node is unlinked, all others keep their order and contents |
| `ArpCache.Cache.Destroy` | 20100117_RouterAssign_1/router/sr_arpcache.c:156-196 | exactly the given request is unlinked, or nothing if it was not on the queue |
| `ArpCache.Cache.ListsAreApart` | 20100117_RouterAssign_1/router/sr_arpcache.c:91-102 | no packet is on the lists of two requests |
| `ArpCache.ListsAreAcyclic` | 20100117_RouterAssign_1/router/sr_arpcache.c:91-102 | following a packet list never comes back |
| `Router.Instance.PacketToOtherDest` | 20100117_RouterAssign_1/router/sr_ip.c:92-161 | the forwarding path is the forwarding step of the state machine |
| `Router.Instance.IpPacket` | 20100117_RouterAssign_1/router/sr_ip.c:186-217 | an arriving frame is one step, and the invariant holds after it |
| `Router.Instance.HandleReq` | 20100117_RouterAssign_1/router/sr_arpcache.h:23-35 | the documented handling of a request |
| `Router.Instance.ForwardWaiting` | 20100117_RouterAssign_1/router/sr_arp.c:54-70 | the drain loop forwards each waiting packet once, in list order |
| `Router.Instance.ArpReply` | 20100117_RouterAssign_1/router/sr_arp.c:49-73 | a reply is one step, and the invariant holds after it |
| `Router.Instance.SweepReqs` | 20100117_RouterAssign_1/router/sr_arpcache.h:51-63 | a sweep handles each request present at its start once, though handling may unlink it, and ends |
| `Router.Instance.Timeout` | 20100117_RouterAssign_1/router/sr_arpcache.c:237-258 | the timeout turn is one step, and the invariant holds after it |
| `Router.Instance.HandleAll` | 20100117_RouterAssign_1/router/sr_router.c:71-103 | any sequence of frames, replies and timeout turns takes the heap through exactly that run of the state machine |
| `RouterProgram.Serve` | 20100117_RouterAssign_1/router/sr_arpcache.h:9-64 | a router that is started and handles any sequence of events is in the state of the run, with every frame that was to be forwarded accounted for |
| `RouterInvariants.SweepStep` | 20100117_RouterAssign_1/router/sr_arpcache.h:56-63 | the next request of a sweep is found just after those kept |
| `RouterInvariants.StepKeepsInv` | 20100117_RouterAssign_1/router/sr_arpcache.h:9-64 | every step keeps the queue's shape, the retry budget, the table's truth and the form of every output |
| `RouterInvariants.RunKeepsInv` | 20100117_RouterAssign_1/router/sr_arpcache.h:9-64 | so does every run |
| `RouterRuns.ForwardConserves` | 20100117_RouterAssign_1/router/sr_ip.c:92-161 | a forwarded frame is transmitted, answered or parked, exactly once |
| `RouterRuns.ReplyConserves` | 20100117_RouterAssign_1/router/sr_arp.c:53-73 | a reply loses and duplicates no waiting packet, even when the table is full |
| `RouterRuns.FramesAreConserved` | 20100117_RouterAssign_1/router/sr_arpcache.h:9-64 | in every run the frames accepted are, counting repetitions, those transmitted, those answered and those waiting |
| `RouterHistory.GoodByBytes` | 20100117_RouterAssign_1/router/sr_ip.c:9-18 | what passes for a good frame: 34 bytes, a header that the RFC 1071 receiver accepts, a checksum not stored as zero |
| `RouterHistory.NextHopExactly` | 20100117_RouterAssign_1/router/sr_ip.c:104-122 | the way on is the first route to exactly the destination, and the first interface whose name agrees with the one the route gives |
| `RouterHistory.ArrivalsInEveryRun` | 20100117_RouterAssign_1/router/sr_ip.c:186-217 | in every run the frames accepted for forwarding are exactly the good ones not for the router itself, in order |
| `RouterHistory.AnswersInEveryRun` | 20100117_RouterAssign_1/router/sr_ip.c:98-109 | in every run exactly the frames for the router itself, those with no hop left and those without a way on are answered at once, in order, each by the interface it came in on |
| `RouterHistory.LogInEveryRun` | 20100117_RouterAssign_1/router/sr_arp.c:49-53 | in every run the insertions are what the replies said, in order, and the last expiry pass was at the last turn of the timeout thread |
| `RouterTheorems.EveryFrameIsAccountedFor` | 20100117_RouterAssign_1/router/sr_arpcache.h:9-64 | in every run the good frames not for the router itself are, counting repetitions, those transmitted, those answered and those waiting |
| `RouterReplies.ReplyOutcome` | 20100117_RouterAssign_1/router/sr_arp.c:53-73 | the exact outcome of a reply: all packets transmitted in order, or all queued again under one fresh request |
| `RouterReplies.DrainToKnown` | 20100117_RouterAssign_1/router/sr_arp.c:61-68 | draining when the address is known |
| `RouterReplies.DrainToUnknown` | 20100117_RouterAssign_1/router/sr_arp.c:61-68 | draining when the table was full |
| `RouterFates.ExhaustionIsFinal` | 20100117_RouterAssign_1/router/sr_arpcache.h:28-31 | an exhausted request was sent exactly five times, goes, and each of its packets is answered once |
| `RouterFates.StepFate` | 20100117_RouterAssign_1/router/sr_arpcache.h:39-54 | in a step a request stays, sent at most once more; or its reply came; or after five sends it goes, and that step sends one stretch of host-unreachables, one for each packet |
| `RouterFates.UnansweredRequestsEnd` | 20100117_RouterAssign_1/router/sr_arpcache.h:51-54 | in every run without a reply for it, whatever else arrives, a request has gone after one sweep more than it has sends left, with each packet answered once since; sweeps more than a second apart are counted |
| `RouterFates.UnansweredRequestsEndInTime` | 20100117_RouterAssign_1/router/sr_arpcache.c:241-258 | the same for timeout turns that are a second apart, as the thread sleeps: twice as many |
| `RouterTheorems.LookupsInEveryRun` | 20100117_RouterAssign_1/router/sr_arpcache.c:38-60 | in every run a hit was inserted for its address and is at most 15 seconds older than the last pass, and every such mapping keeps its address known |
| `RouterTheorems.NewestMappingMayLose` | 20100117_RouterAssign_1/router/sr_arpcache.c:43-48 | a run in which a lookup returns the older of two valid mappings for its address |
| `RouterTheorems.TransmissionsInEveryRun` | 20100117_RouterAssign_1/router/sr_ip.c:113-137 | in every run a transmitted frame is an accepted one with its time to live one lower and not yet zero, a valid checksum and nothing else changed but the hosts: to a learned address, from the next hop's interface |
| `RouterTheorems.RetriesInEveryRun` | 20100117_RouterAssign_1/router/sr_arpcache.h:26-35 | in every run at most five ARP requests per queued request, more than a second apart |
| `RouterTheorems.OutputsInEveryRun` | 20100117_RouterAssign_1/router/sr_ip.c:98-109 | in every run each ICMP error and ARP request has its cause, and the host-unreachables of a request that was given up go out by its route |
| `RouterTheorems.AnswerLoopSticks` | 20100117_RouterAssign_1/router/sr_arp.c:90-99 | with two or more packets the answering loop never ends |
| `RouterTheorems.AnswerLoopSkips` | 20100117_RouterAssign_1/router/sr_arp.c:90-99 | with one packet or none it answers nobody |
| `RouterTheorems.AnswerLoopMeetsProtocolExactly` | 20100117_RouterAssign_1/router/sr_arp.c:90-99 | it meets the protocol exactly when no packet waits |
| `RouterTheorems.WrittenSweepMeetsProtocolExactly` | 20100117_RouterAssign_1/router/sr_arpcache.c:20-32 | the sweep as written is the documented one exactly if no request but the last is exhausted, and every request that is sent again is reached by the interface that the first is reached by |
| `Aimd.Controller.AckReceived` | Assign_3/controller_AIMD_best.cc:70-110 | one ack of the window rule, on time if the wrapped round trip is at most 105 ms |
| `Aimd.ClampNeverFires` | Assign_3/controller_AIMD_best.cc:108-110 | the final clamp to one has no effect |
| `Aimd.WindowIsBounded` | Assign_3/controller_AIMD_best.cc:93-106 | after any N acks from the start: window at least 3, threshold at least 2, window squared at most 676 + (40/9) N |
| `Aimd.WindowFitsUnsigned` | Assign_3/controller_AIMD_best.cc:16-27 | so the window fits the unsigned int for up to 4 * 10^18 acks |
| `Aimd.AfterLateAck` | Assign_3/controller_AIMD_best.cc:102-106 | a late ack leaves a window of 3 and a threshold one above half the window, rounded down |
| `Aimd.SlowStartClimbs` | Assign_3/controller_AIMD_best.cc:95-97 | after a late ack on-time acks step 3, 4, ... to one above the new threshold |
| `Aimd.AvoidanceGrows` | Assign_3/controller_AIMD_best.cc:98-105 | then n further acks add between 4n and (4 + (2/(s+1))^2) n to the square of the window |
| `Aimd.AcksToRegain` | Assign_3/controller_AIMD_best.cc:93-106 | how many acks regain the window, from both sides |
| `Throughput.Controller.AckReceived` | Assign_3/controller_throughput.cc:69-127 | one ack of the estimator and its file-level state |
| `Throughput.TakeAcks` | Assign_3/controller_throughput.cc:58-127 | a started controller that takes any sequence of acks is in the state of the run, with every ack accounted for |
| `Throughput.AcksAreAccounted` | Assign_3/controller_throughput.cc:85-127 | over every run: acks are the reported counts plus the current one, the estimate is their decayed sum and at most a hundredth of them, the window is from 1 to max(10, acks/2) |
| `Throughput.LateAcksAtEnd` | Assign_3/controller_throughput.cc:85-89 | in every run the consecutive timeouts counted are the late acks at the end of the sequence |
| `Throughput.NextAckInEveryRun` | Assign_3/controller_throughput.cc:91-127 | after any run, an ack within the slot is counted and leaves the window; a later one reports the count, and the window is the decayed sum of the reports times 50, times 44 from the second late ack in a row, and 3 if that is below 1 |
| `Throughput.EndTimeFollowsAcks` | Assign_3/controller_throughput.cc:97-115 | the end time stays less than a slot beyond the latest ack |
| `Throughput.WeightedAppend` | Assign_3/controller_throughput.cc:106-109 | the moving average is the sum with weights 0.85^k |
| `Sender.DatagrumpSender.FillWindow` | Assign_3/sender.cc:125-131 | the first rule sends exactly the room in the window, and ends with the window shut |
| `Sender.DatagrumpSender.GotAck` | Assign_3/sender.cc:80-96 | an ack raises the next expected number and informs the controller |
| `Sender.DatagrumpSender.WindowIsOpen` | Assign_3/sender.cc:113-116 | the 64-bit unsigned comparison |
| `Sender.DatagrumpSender.SendDatagram` | Assign_3/sender.cc:98-111 | the next number is sent |
| `Sender.DatagrumpSender.OnTimeout` | Assign_3/sender.cc:150-153 | one datagram more after a timeout |
| `Sender.Serve` | Assign_3/sender.cc:119-154 | a started sender that handles any sequence of events ends in the state of the run, which is safe |
| `Sender.WindowInEveryRun` | Assign_3/controller_AIMD_best.cc:70-110 | in every run the window is what its acks, each within 105 ms or not by the wrapped difference of the clocks, make of 10 datagrams and a threshold of 25 |
| `Sender.ExpectedInEveryRun` | Assign_3/sender.cc:87-89 | in every honest run the next expected number is one more than the highest acknowledged |
| `Sender.OpenIsRoomForOne` | Assign_3/sender.cc:113-116 | the window is open exactly if one datagram more fits in it |
| `Sender.ClosingFillsWindow` | Assign_3/sender.cc:125-131 | the first rule leaves as many datagrams outstanding as the window holds whole, or as many as there were |
| `Sender.TimeoutSendsOne` | Assign_3/sender.cc:150-153 | a timeout leaves one datagram more outstanding, with the next number |
| `Sender.StepSendsMore` | Assign_3/sender.cc:87-89 | the next expected number never decreases |
| `Sender.EveryRunIsSafe` | Assign_3/sender.cc:80-154 | every number sent once and in order, none acknowledged before it is sent, outstanding at most the widest window and the timeouts |
| `Sender.OutstandingIsLimited` | Assign_3/sender.cc:113-116 | so outstanding beyond the timeouts is at most the root of 676 + (40/9) N |
| `Sender.AckOfUnsentNumber` | Assign_3/sender.cc:87-89 | the bound on the next expected number survives an ack exactly if its number was sent, or is the last 64-bit number, whose successor is zero |

## Left out

- Sockets, the VNS reader, authentication files, logging and dumping: input and output only.
- Threads and mutexes: each entry point of the router is one atomic step, although the code releases the cache lock between the calls of a frame or a reply.
- The ICMP builders of `sr_icmp.c`: an ICMP answer is recorded with its cause, not built.
- Answering ARP requests, and the test that a reply is addressed to the router (`sr_arp.c:18-48`): only the reply branch is modelled.
- Frames for the router's own addresses (`sr_ip.c:194-208`) are recorded as handed over.
- Memory: `free` and the uninitialised fields of a fresh interface are not modelled beyond promising nothing about them.
- ArpCache.PacketNode: a waiting packet's bytes are a sequence that never changes, and the drain forwards a copy; the code rewrites the queued buffer itself, which nothing reads afterwards.
- Router.Instance.HandleReq: models the documented protocol; the loop as written is the subject of `RouterTheorems.AnswerLoopMeetsProtocolExactly`.
- Router.Instance.SweepReqs: models the documented traversal, with each request routed by its own address.
- IpFrame.ValidateChecksum: IP frames only; for other frames the code returns no value.
- Topology.ScanOnHostRoutes: longest-prefix matching is compared for host routes only, because the code never reads a mask.
- Floating-point rounding in the controllers.
- Throughput.Controller.AckReceived: the code adds the slot to `end_time` in a double; here it is exact, as it is there while clocks stay below 2^53 ms (`Throughput.EndTimeFollowsAcks`).
- Sender.DatagrumpSender.GotAck: the window must stay below 2^32, where its conversion to unsigned int is defined; `Aimd.WindowFitsUnsigned` says when it does.
- The measurement scripts and trace data: library use and raw data.
