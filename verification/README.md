# A verified model of OICNSIM

OICNSIM simulates an overlay information-centric network on ns-3. Clients ask a manager for contents
by name; the manager redirects the request to a server, or to a router that has cached the content on
its way; the source then sends the content to the client. This project models the parts of the
simulator that decide whether that works, and proves what they keep:

- **IPv4 fragmentation and reassembly** (`Ipv4Fragmentation`, `FragmentsOnPath`, `Ipv4Reassembly`,
  `ReassemblyProperties`, `Ipv4Router`, `DatagramDelivery`, `FragmentTimeouts`, `Identification`): the
  splitting loop, what routers split again on the way, the offset-sorted reassembly buffers, the table of
  buffers with its timers and what they report, and the identification counters.
- **The named-content caches** (`FloatStamp`, `NamedContentCache`, `CacheProperties`, `CacheRuns`,
  `CacheCapacity`, `RecencyOrder`, `UniversalPolicy`): the cache with its policy index under the FIFO,
  LRU, LFU and Universal policies.
- **The directory and the network** (`NameTables`, `CacheManager`, `SublayerProtocol`, `ReplyFragments`,
  `Network`, `ContentDelivery`, `Redirects`, `ReplyDelivery`, `HopLimits`, `Limits`): the transaction over
  cache, policy index and directory, the check a router makes of every packet, and the state machine of any
  number of routers with the packets and fragments between them. In that state machine a packet that starts
  a reply records the links its content has crossed from the server and the least room they have cut it to,
  and so does every cached copy.
- **The wire protocol** (`Wire`, `OicnHeader`, `DnsPlusHeader`, `DnsPlusSections`, `Messages`,
  `IcnManager`, `IcnRouter`): the sublayer header, the DNS-like header with its additive flag setters
  (section 4.1.1 of RFC 1035), the question and answer sections, and the messages of a name resolution.
- **The Zipf client** (`ZipfClient`): its distribution, normalised in place, and the search in it.

Code that changes objects or loops is modelled by classes and methods with loops, each proved against a
function or predicate on values; what holds over whole runs is proved about those functions. Packets,
names and cached data are byte sequences, and fixed-width arithmetic is written out. The four cache
classes of the source share all but their index, their hit and their eviction rule; they are one class
here with a `policy` field that selects those.

## What the code does not do

The model follows the code where the code falls short of what one would expect. For each such case a
lemma says exactly when it does what it should, and in most a second one gives a run in which it does not:

- Routers check packets before reassembly and without a look at offset and MF. A first fragment that holds
  the headers is cached as the content, listed in the directory and served: `FirstFragmentIsCached`. A copy
  or a reply is the server's content exactly if the whole reply fits every link on its way:
  `CopyIsContentExactly`, `ReplyIsContentExactly`; a run cuts nothing exactly if no event puts the reply on
  a link it does not fit: `NothingCutExactly`. A later fragment that happens to read as a reply is taken
  for one: `LaterFragmentIsCached`; which datagrams have such fragments is said by `LaterFragmentExactly`
  and `HarmlessExactly`. What servers and routers send has none: `CopyHasNoReply`.
- Contents are sent and cached as C strings, up to their first NUL: `KeptExactly`.
- Splitting a fragment again loses its offset if it is the last one: `Refragmented`, `BehindExactly`. The
  datagram does then not come back: `ReassembledBehindLinks`, `ClientGetsReply`; the receiver can even take
  its first half for the whole: `LastSplitAgainTruncates`. With an MTU of 20 to 27 the splitting loop never
  ends: `SplittingEnds`.
- An overlapping fragment that starts last in the buffer and does not reach the end hides that a datagram
  is complete: `EntireExactly`, `OverlapHidesCompletion`. A fragment that ends before an earlier one makes
  the size of the partial packet wrap when the timer expires: `PartialExactly`, `PartialCanWrap`.
- Beyond 429496 hits, or for a TTL beyond 64, the Universal index wraps: `IndexWithoutWrap`, `IndexExactly`,
  `IndexWraps`.
- A full LFU or Universal cache grows beyond its size when nothing with the least index is stale:
  `GrowsWhenFullExactly`, `StoreInRunExactly`, `LfuOutgrowsItsSize`.
- Replies copy TC twice, and the acknowledgement to the client adds the query's RCODE to its own:
  `AckExactly`, `RedirectExactly`, `SourceAckExactly`. Queries of the clients have both clear.
- A header length beyond the limit of its kind is not read back: `KindAndLengthExactly`.
- A redirect fails if its content is evicted before it arrives: `RedirectComesTooLate`. What evicts it is
  said by `LeavesOnlyDisplaced`; when it is still there by `RecencyDecides` (LRU and FIFO) and
  `FreshnessProtects` (LFU and Universal).
- With marking off a router still rewrites a reply it caches whose name field holds something behind the
  name: `UnmarkedUnchangedExactly`.

## Model

| member | source | states |
|---|---|---|
| Ipv4Fragmentation.DoFragmentation | model/ipv4-router-l3-protocol.cc:1262-1351 | The fragments lie end to end from the carried-over offset, carry the payload completely and in order, keep the datagram's fields, have MF set on all but the last (and on the last if the packet had it), and are full except the last |
| Ipv4Fragmentation.SplittingEnds | model/ipv4-router-l3-protocol.cc:1293-1350 | The splitting loop ends if and only if the payload is empty or the MTU is not 20 to 27 |
| Ipv4Fragmentation.FragmentsFitMtu | model/ipv4-router-l3-protocol.cc:1293-1296 | Every fragment with its header fits the MTU it was split for |
| Ipv4Fragmentation.FragmentsAligned | model/ipv4-router-l3-protocol.cc:1293-1296 | Every fragment starts on an 8-byte boundary of the packet split |
| Ipv4Fragmentation.FragmentSizeLargest | model/ipv4-router-l3-protocol.cc:1293-1296 | The room for payload in a fragment is the largest multiple of 8 that fits the MTU with the header |
| Ipv4Fragmentation.FragmentsAreLarge | model/ipv4-router-l3-protocol.cc:1293-1296 | Every fragment but the last is as large as the link allows: with 8 bytes more it would not fit |
| Ipv4Fragmentation.FragmentationUnique | model/ipv4-router-l3-protocol.cc:1300-1350 | The splitter's contract leaves no choice: two lists that meet it for the same packet and MTU are equal |
| Ipv4Fragmentation.Refragmented | model/ipv4-router-l3-protocol.cc:1287-1291 | Splitting one fragment of a datagram again leaves the fragments a complete cover of it if and only if that fragment has MF set or starts at offset 0 |
| Ipv4Fragmentation.RefragmentedOnPath | model/ipv4-router-l3-protocol.cc:1281-1351 | After any number of such splits on a path, of any fragments and each for an MTU of its own, the fragments still cover the datagram and start on 8-byte boundaries |
| FragmentsOnPath.CrossedFits | model/ipv4-router-l3-protocol.cc:798-811 | Behind a link that splits what does not fit, every fragment fits it and none reaches further than before |
| FragmentsOnPath.CrossedExactly | model/ipv4-router-l3-protocol.cc:798-811 | A link keeps the fragments a complete cover of the datagram if and only if the last fragment fits it, or starts the datagram |
| FragmentsOnPath.BehindExactly | model/ipv4-router-l3-protocol.cc:1281-1351 | Behind any row of links the fragments are aligned and fit the last link; they cover the datagram if and only if its last fragment survived every link, and otherwise none reaches its end |
| Ipv4Reassembly.Fragments.AddFragment | model/ipv4-router-l3-protocol.cc:1421-1443 | The fragment is inserted behind all that start no later, and the stored flag is the MF flag of the fragment last in the list |
| Ipv4Reassembly.Fragments.IsEntire | model/ipv4-router-l3-protocol.cc:1445-1474 | True exactly when the list is not empty, its last fragment has MF clear and no fragment starts beyond the highest end before it |
| Ipv4Reassembly.Fragments.GetPacket | model/ipv4-router-l3-protocol.cc:1476-1513 | The fragments' bytes in list order, each without what overlaps the bytes already there |
| Ipv4Reassembly.Fragments.GetPartialPacket | model/ipv4-router-l3-protocol.cc:1515-1549 | Empty if the first fragment is missing, else the bytes up to the first gap, or nothing defined if the unguarded subtraction wraps |
| ReassemblyProperties.InsertSorted | model/ipv4-router-l3-protocol.cc:1429-1442 | The list stays sorted by offset |
| ReassemblyProperties.InsertLast | model/ipv4-router-l3-protocol.cc:1437-1442 | The fragment last in the list is the newest of those with the highest offset |
| ReassemblyProperties.EntireRebuilds | model/ipv4-router-l3-protocol.cc:1445-1513 | If all stored fragments are slices of one datagram, in any order and with any overlaps, a complete buffer rebuilds exactly that datagram |
| ReassemblyProperties.EntireExactly | model/ipv4-router-l3-protocol.cc:1445-1474 | A sorted buffer of slices is complete if and only if every byte has arrived and the fragment last in list order reaches the end |
| ReassemblyProperties.PartialExactly | model/ipv4-router-l3-protocol.cc:1531-1546 | The partial packet is defined if and only if no fragment before the first gap ends before an earlier one, and is then the datagram up to the first gap |
| ReassemblyProperties.PartialCanWrap | model/ipv4-router-l3-protocol.cc:1531-1540 | A buffer of true slices for which the partial packet is not defined |
| ReassemblyProperties.PartialIsLongestPrefix | model/ipv4-router-l3-protocol.cc:1515-1549 | It is the longest prefix of the datagram that has arrived completely, and the whole datagram when the buffer is complete |
| ReassemblyProperties.MonotoneEndsAreEnough | model/ipv4-router-l3-protocol.cc:1531-1540 | Ends that never decrease in list order are enough for the partial packet to be defined |
| Ipv4Router.Ipv4RouterL3Protocol.ProcessFragment | model/ipv4-router-l3-protocol.cc:1356-1405 | The fragment's buffer, and no other, takes it; the call returns the datagram and drops buffer and timer exactly when the buffer is then complete; tables and pending timers stay in step, and each timer keeps the header of the fragment that opened its buffer |
| Ipv4Router.Ipv4RouterL3Protocol.HandleFragmentsTimeout | model/ipv4-router-l3-protocol.cc:1551-1573 | Drops the buffer and its timer; more than 8 partial bytes go into an ICMP message with the header kept with the timer |
| Ipv4Router.Ipv4RouterL3Protocol.Expire | model/ipv4-router-l3-protocol.cc:1376-1379 | A pending expiration always finds a buffer, which it drops, and every remaining buffer keeps its own pending timer |
| FragmentTimeouts.ExpiryExactly | model/ipv4-router-l3-protocol.cc:1551-1565 | The expiration of a buffer of true slices reports the datagram up to the first gap, with the header kept with the timer, if and only if its first nine bytes have arrived; it drops it silently otherwise, and its size wraps if and only if a fragment before the gap ends early |
| FragmentTimeouts.LostFragmentsReported | model/ipv4-router-l3-protocol.cc:1551-1565 | After some of a splitter's fragments, in any order with any duplicates, the expiration reports exactly what lies before the first missing fragment if that is more than 8 bytes |
| Ipv4Router.ScheduleKeepsPaired | model/ipv4-router-l3-protocol.cc:1371-1380 | Scheduling the timer of a new buffer keeps timers and pending expirations in one-to-one correspondence |
| Ipv4Router.CancelKeepsPaired | model/ipv4-router-l3-protocol.cc:1396-1401 | So does cancelling the timer of a complete datagram |
| Ipv4Router.Ipv4RouterL3Protocol.BuildHeader | model/ipv4-router-l3-protocol.cc:725-771 | The header takes the counter of its source, destination and protocol, which alone advances, in 16 bits |
| DatagramDelivery.KeysDistinct | model/ipv4-router-l3-protocol.cc:1362-1369 | The packed keys of two datagrams are equal only if all four fields are |
| DatagramDelivery.NonInterference | model/ipv4-router-l3-protocol.cc:1356-1405 | In any interleaving of fragments and timeouts of many datagrams, each datagram gets exactly the results and the buffer it would get alone |
| DatagramDelivery.Reassembles | model/ipv4-router-l3-protocol.cc:1356-1513 | Fragments that cover a datagram, delivered in any order with any duplicates among any other traffic, return nothing until the last missing one arrives, which returns the datagram and frees the buffer |
| DatagramDelivery.SplitAndReassemble | model/ipv4-router-l3-protocol.cc:1262-1513 | The same for the splitter's output: what was split comes back |
| DatagramDelivery.ReassembledBehindLinks | model/ipv4-router-l3-protocol.cc:1262-1513 | What was split and split again over any row of links comes back, when all that is left of it has arrived in any order with any duplicates among any other traffic, if and only if the last fragment survived every link |
| DatagramDelivery.NeverReassembled | model/ipv4-router-l3-protocol.cc:1262-1513 | If it did not, the datagram is never returned, whatever arrives how often and whatever times out |
| DatagramDelivery.LastSplitAgainTruncates | model/ipv4-router-l3-protocol.cc:1287-1291 | A datagram in two fragments whose last one is split again: the receiver returns its first half as the datagram |
| DatagramDelivery.OverlapHidesCompletion | model/ipv4-router-l3-protocol.cc:1437-1451 | A datagram that arrives in pieces of two splits: every byte is there and the receiver still waits |
| DatagramDelivery.OverlapsAreSound | model/ipv4-router-l3-protocol.cc:1356-1513 | Whatever the cuts, overlaps, duplicates and timeouts, if all fragments that arrive are slices of one datagram, nothing else is ever returned for it |
| Identification.IdentificationFromStart | model/ipv4-router-l3-protocol.cc:745-765 | From the start, a datagram's identification is the number of datagrams of its flow built before it, modulo 65536 |
| Identification.CounterIsCount | model/ipv4-router-l3-protocol.cc:745-758 | A flow's counter is the number of datagrams built for it since the start, modulo 65536, whatever was built for other flows |
| Identification.KeySharedExactly | model/ipv4-router-l3-protocol.cc:745-765 | Two datagrams share a reassembly key if and only if they are of one flow and a multiple of 65536 datagrams of that flow apart |
| Identification.ConsecutiveDistinct | model/ipv4-router-l3-protocol.cc:745-765 | Any two of 65536 consecutive datagrams of a flow have different keys |
| FloatStamp.StampMonotone | model/cache-with-lru.cc:81-85 | The index made from a time through a float never decreases as time goes on |
| FloatStamp.StampIsNearest | model/cache-with-lru.cc:81-85 | It is a float next to the time, and none is nearer |
| FloatStamp.SmallStampsExact | model/cache-with-lru.cc:81-85 | Up to 24 bits it is the time itself |
| FloatStamp.StampsTie | model/cache-with-lru.cc:81-85 | Different times can get the same index |
| NamedContentCache.NamedContentCache.CreateIndex | model/simple-universal-caching.cc:84-101 | The index of the policy; for Universal the scan finds the highest frequency of the entry and all cached ones |
| NamedContentCache.NamedContentCache.IsEvictable | model/cache-with-lfu.cc:93-107 | FIFO and LRU always; LFU and Universal if the index reaches the least one or an entry with the least index is stale |
| NamedContentCache.NamedContentCache.EvictEntry | model/cache-with-lfu.cc:109-140 | FIFO and LRU remove the first row; LFU and Universal the first row with the least index whose entry is stale, or nothing |
| NamedContentCache.NamedContentCache.UpdateIndex | model/simple-universal-caching.cc:145-158 | A hit replaces the entry by its bumped version and its row by one with the new index, and touches no other name; nothing for FIFO |
| NamedContentCache.NamedContentCache.Find | model/cache-with-lru.cc:168-179 | Returns the cached data and counts as a hit |
| CacheProperties.SetConsistent | model/cache-manager.cc:86-126 | After SetEntry on any of its paths, rows and cache hold the same names, each once, in index order |
| CacheProperties.TouchedConsistent | model/cache-with-lru.cc:112-121 | So they do after a hit |
| CacheProperties.RowsCountEntries | model/named-content-cache.h:91-99 | There are as many rows as entries |
| CacheProperties.SetRows | model/cache-manager.cc:74-126 | The row SetEntry gives a name carries the index of its new entry among all entries cached before; every other row is one from before |
| CacheProperties.TouchedRows | model/simple-universal-caching.cc:145-158 | The row a hit gives a name carries the index of its bumped entry among the others; every other row is one from before |
| CacheRuns.RunReaches | model/cache-manager.cc:74-127 | In every reachable state of every policy rows and cache agree, every entry is what the history of its name says, and FIFO, LRU and LFU rows carry the index their entry calls for |
| CacheRuns.EntryFromHistory | model/simple-universal-caching.cc:71-82 | An entry holds the data of the last store of its name up to the first NUL and, for LFU and Universal, its TTL; its timestamp is the time of that store, for LRU and Universal of the last store or hit |
| CacheRuns.FrequencyCountsHits | model/cache-with-lfu.cc:148-161 | The frequency of an entry is one more than the hits since it was stored, in 32 bits |
| CacheRuns.LfuIndexCountsHits | model/cache-with-lfu.cc:87-91 | So is every index an LFU cache ever stores |
| CacheCapacity.GrowsWhenFullExactly | model/cache-manager.cc:89-108 | On a full LFU or Universal cache SetEntry grows it by one if and only if the name is new, its index reaches the least one and no entry with the least index is stale; it refuses if and only if the name is new and both fail |
| CacheCapacity.HoldsExactly | model/cache-manager.cc:86-126 | For every policy and fill level: SetEntry caches the name unless it is new, the cache full and the policy selective with nothing stale and the index too low; and it keeps every other name but the one next to go when it takes a new one into a full cache |
| CacheCapacity.StoreInRunExactly | model/cache-with-lfu.cc:93-140 | Over runs of an LFU or Universal cache, in plain time differences: a store evicts the first entry with the least index that is at least the freshness time old, and without one it grows the cache or is refused, as its index reaches the least one or not |
| CacheCapacity.LeavesOnlyAsVictim | model/cache-with-lfu.cc:109-140 | SetEntry removes a name only to make room for a new one in a full cache: the first row for FIFO and LRU, a stale one with the least index for LFU and Universal, and no other name with it |
| CacheCapacity.LeavesExactly | model/cache-manager.cc:86-118 | SetEntry removes a name if and only if another, new name comes to a full cache and, in the cache before, this one is next to go: the first row, or the first row with the least index whose entry is stale |
| CacheCapacity.LfuOutgrowsItsSize | model/cache-with-lfu.cc:93-131 | A run after which an LFU cache of size 1 holds two contents |
| CacheCapacity.KeptWhileFresh | model/simple-universal-caching.cc:119-137 | Over any run, an LFU or Universal cache keeps what it has for the freshness time after its timestamp, whatever the traffic |
| CacheCapacity.EvictedWasOldEnough | model/simple-universal-caching.cc:119-137 | Over any run with a clock that never goes back, what is evicted from LFU and Universal caches is at least the freshness time old |
| CacheCapacity.CapacityKept | model/cache-manager.cc:86-118 | FIFO and LRU never exceed the cache size, nor do LFU and Universal with freshness 0 |
| RecencyOrder.RowsAreRecency | model/cache-with-lru.cc:92-121 | After any run the rows of an LRU cache name exactly the last distinct names stored or looked up, as many as it holds, oldest first, also where indexes tie; those of a FIFO cache the last stored |
| RecencyOrder.RecencyByLastTouch | model/cache-with-lru.cc:112-121 | The reference list is ordered by last occurrence in the trace |
| RecencyOrder.RecencyContents | model/cache-with-lru.cc:112-121 | The reference list holds the names of the trace, each once |
| RecencyOrder.SetPushes | model/cache-with-fifo.cc:93-111 | SetEntry moves a known name to the end, appends a new one, and drops the front of a full list |
| RecencyOrder.TouchMoves | model/cache-with-fifo.cc:159-170 | Find moves the name to the end for LRU and leaves the order alone for FIFO |
| RecencyOrder.CachedExactly | model/cache-with-lru.cc:92-121 | After any run a name is in an LRU or FIFO cache if and only if it has been touched and fewer other names than the cache holds have been touched since |
| UniversalPolicy.TtlCountsHops | model/ipv4-router-l3-protocol.cc:900-916 | A packet sent with a positive TTL is seen after each hop with the hops taken off, and dropped before it reaches 0 |
| UniversalPolicy.IndexWithoutWrap | model/simple-universal-caching.cc:84-101 | With frequencies up to 429496 and TTL up to 64 the index is the share of the highest frequency plus the hop term, at most 30000 |
| UniversalPolicy.IndexExactly | model/simple-universal-caching.cc:84-101 | The index is the share of the highest frequency in ten thousandths, rounded down, plus 312.5 for each hop the content has come, rounded down |
| UniversalPolicy.FartherIsHigher | model/simple-universal-caching.cc:98 | Of two contents the one from farther away that is at least as popular has the higher index, by 312 or 313 for each hop if just as popular |
| UniversalPolicy.IndexAmong | model/simple-universal-caching.cc:84-101 | The index compares an entry with the highest frequency of all cached entries and its own, in an empty cache with itself |
| UniversalPolicy.IndexWraps | model/simple-universal-caching.cc:98 | Beyond the bounds: one hit more makes the most popular content the least, and a TTL of 255 makes a near one the farthest |
| UniversalPolicy.IndexMonotone | model/simple-universal-caching.cc:98 | Against the same maximum the index is monotone in the frequency and antitone in the TTL |
| UniversalPolicy.IndexMonotoneInFrequency | model/simple-universal-caching.cc:84-101 | Against the same other entries it is monotone in the entry's own frequency, which also counts towards the maximum |
| UniversalPolicy.StoredIndexesBounded | model/simple-universal-caching.cc:84-158 | Over any run in which no name is hit 429496 times after it was last stored, every stored index stays at most 30000 |
| HopLimits.TtlsStayUsual | model/ipv4-router-l3-protocol.cc:900-916 | In every run of the network in which packets are made with a TTL of 1 to 64, every packet and fragment has one |
| HopLimits.ForwardedOneLess | model/ipv4-router-l3-protocol.cc:900-916 | A router forwards every packet but those on their last hop, with one hop less and otherwise the header it came with |
| HopLimits.IndexesBoundedInNetwork | model/simple-universal-caching.cc:84-158 | So in every such run every stored index of a Universal router stays at most 30000, if no name is hit there 429496 times after it was last stored |
| UniversalPolicy.NoDivisionByZero | model/simple-universal-caching.cc:86-98 | The divisor is zero only if the frequencies of the entry and of all cached ones are |
| NameTables.NameTables.NameRegisteration | model/icn-manager.cc:78-91 | Every content of every server is added with its address, in order |
| NameTables.RegisteredExactly | model/icn-manager.cc:78-91 | A pair is registered if and only if the content is listed for a server with that address |
| NameTables.NameTables.SetCachedRouterEntry | model/icn-manager.cc:94-98 | Adds one occurrence of the pair |
| NameTables.NameTables.EvictCachedRouterEntry | model/icn-manager.cc:100-113 | Removes one occurrence of the pair if there is one, and nothing else |
| NameTables.NameTables.NameResolution | model/icn-manager.cc:311-345 | A router listed for the name if there is one, else a server listed for it, else nothing |
| CacheManager.CacheManager.SetEntry | model/cache-manager.cc:74-127 | Cache and policy index change together as the policy says, with the data up to its first NUL, and the directory gains the name and loses the evicted one exactly when they do |
| OicnHeader.KindAndLengthExactly | model/oicn-header.cc:74-126 | Kind and length are both read back from the first word if and only if the length is within the limit of its kind (28 bits for cachable replies) |
| OicnHeader.KindsApart | model/oicn-header.h:134-136 | With lengths of 28 bits two first words are equal only for the same kind and length |
| OicnHeader.ReadWritten | model/oicn-header.cc:104-126 | A header is read back with its kind, its length and its name up to the first NUL, leaving the rest of the packet; it is read back unchanged if and only if the name has no NUL |
| OicnHeader.NamedLayout | model/oicn-header.cc:104-112 | A header is a word with 0x3, 0xB or 0xF in front of its length, then the name |
| OicnHeader.OicnHeader.RemoveFrom | model/oicn-header.cc:114-126 | Reads the header at the front of a packet, or fails where the buffer is too short or the length below 4 |
| DnsPlusHeader.AdditiveExactly | model/dnsplus-header.cc:77-171 | After any sequence of setter calls the receiver decodes every field as what was added to it if and only if no field got more than it has room for |
| DnsPlusHeader.SumByFields | model/dnsplus-header.cc:124-171 | The sum of any setter calls is the sum of what each field got, at the place section 4.1.1 of RFC 1035 gives it |
| DnsPlusHeader.ReadWritten | model/dnsplus-header.cc:77-108 | Id, flag word and counts are read back and the rest of the packet is left |
| DnsPlusHeader.DnsPlusHeader.AddTo | model/dnsplus-header.cc:77-86 | The word written is the sum of all setter calls, cut to 16 bits |
| DnsPlusHeader.DnsPlusHeader.RemoveFrom | model/dnsplus-header.cc:88-108 | Every field is decoded from its own bits |
| DnsPlusHeader.DnsPlusHeader.SetQR | model/dnsplus-header.cc:124-134 | A value other than 0 and 1 is not stored but still added to the word |
| DnsPlusSections.QuestionBack | model/dnsplus-question-header.cc:74-108 | A question is read back with its name up to the first NUL, leaving the rest of the packet |
| DnsPlusSections.AnswerBack | model/dnsplus-answer-section.cc:77-119 | An answer is read back with its name up to the first NUL, leaving the rest of the packet |
| DnsPlusSections.QuestionLayout | model/dnsplus-question-header.cc:74-88 | Reserved bits and length in one word, then name, type and class |
| DnsPlusSections.AnswerLayout | model/dnsplus-answer-section.cc:77-96 | Reserved bits and length in one word, then name, type, class, TTL, address length and address |
| Messages.AckExactly | model/icn-manager.cc:349-368 | The client decodes the verdict if and only if its query had RCODE 0, and all flags if and only if TC was clear as well |
| Messages.RedirectExactly | model/icn-manager.cc:392-405 | The redirect's flag word is the one meant if and only if TC was clear in the query |
| Messages.SourceAckExactly | model/icn-router.cc:187-200 | The source's acknowledgement has the flag word meant if and only if TC was clear in the redirect |
| Messages.ConstructQuery | model/oicn-zipf-client.cc:215-249 | The packet of a query, whose every field `QueryBack` gives |
| Messages.QueryBack | model/icn-manager.cc:248-276 | The manager reads from a query a non-cachable header with the name, OPCODE 11 and no other flag, one question of type and class 1 with the name, and nothing else |
| Messages.AckBack | model/oicn-zipf-client.cc:260-296 | The client reads OPCODE 12, RCODE 6 if its name was resolved and 7 otherwise, no other flag, and its own question |
| Messages.RedirectBack | model/icn-router.cc:126-157 | The source reads QR 1, OPCODE 13 and no other flag, the question, and one answer with the name and the client's address, and nothing else |
| Messages.SourceAckBack | model/icn-router.cc:182-208 | The manager reads from the source's acknowledgement QR 1, OPCODE 15 and no other flag, and the question |
| Messages.RepliesBack | model/icn-manager.cc:347-412 | For any message replied to: each reply keeps its sublayer header and question, and of its counts all, all but one answer, or that of the questions |
| IcnManager.IcnManager.ReadPacket | model/icn-manager.cc:248-308 | A query with one question of class 1 with a name is answered by an acknowledgement that says whether a source is known and, if so, a redirect to a router that is listed for the name or else to a server; nothing is sent for any other question, without a question, and for other messages |
| IcnManager.IcnManager.SendAckToClient | model/icn-manager.cc:347-376 | The acknowledgement's bytes, flags by the setter calls in their order |
| IcnManager.IcnManager.SendToSource | model/icn-manager.cc:378-412 | The redirect's bytes, with the client's address in the answer |
| IcnManager.QueryHandled | model/icn-manager.cc:248-308 | Every query a client writes is answered so, with the name asked for and the flags under which the acknowledgement is exact |
| IcnRouter.IcnRouter.ReadPacket | model/icn-router.cc:126-179 | A redirect with one answer of class 1 with a name is acknowledged and the cached content sent to the client named in it; where the content is no longer cached the acknowledgement goes out and the source then has no defined behaviour; nothing is sent for any other answer, without an answer, and for other messages |
| IcnRouter.IcnRouter.SendToClient | model/icn-router.cc:210-217 | The cached data behind a cachable sublayer header, counted as a hit |
| IcnRouter.RedirectHandled | model/icn-router.cc:126-179 | The manager's redirect of a query makes the router acknowledge and serve the name asked for to the client that asked, or acknowledge and fail if it no longer caches it |
| SublayerProtocol.SublayerProtocol.OICNSublayerCheck | model/sublayer-protocol.cc:76-97 | A cachable reply is offered to the cache under the name in the packet and, if cached, sent on with its kind as set; every other packet is sent on as it is and changes nothing |
| SublayerProtocol.SublayerProtocol.HasSublayer | model/sublayer-protocol.cc:103-129 | Recognises exactly UDP packets from port 89 whose first word is that of a cachable reply, and strips their headers |
| SublayerProtocol.ReplySentOn | model/sublayer-protocol.cc:76-97 | A reply is sent on byte for byte except for its kind, which changes only if the router caches it and marks what it caches |
| SublayerProtocol.UnmarkedUnchangedExactly | model/sublayer-protocol.cc:76-97 | With marking off the check returns a packet byte for byte if and only if it is not a reply the router caches or has only zeros behind its name |
| SublayerProtocol.MarkChangesPrefixOnly | model/oicn-header.h:134-135 | Marking changes only the four bits in front of the length |
| SublayerProtocol.ResolutionPasses | model/sublayer-protocol.cc:103-129 | No message of a resolution is taken for a reply, whatever port it comes from: every router caches nothing and sends it on byte for byte |
| SublayerProtocol.ReplyAlong | model/sublayer-protocol.cc:76-133 | Along a path of any length and any mix of settings a reply keeps everything but its kind |
| SublayerProtocol.CachedExactly | model/sublayer-protocol.cc:76-97 | A router on a path caches a reply if and only if its cache accepts it and no router before it has cached and marked it |
| SublayerProtocol.MarkingCachesOnce | model/sublayer-protocol.cc:83-97 | If all routers on a path mark what they cache, no two of them cache the same reply, and it arrives marked exactly if one did |
| SublayerProtocol.UnmarkedPath | model/sublayer-protocol.cc:83-97 | If none marks, every router that accepts the reply caches it and it arrives byte for byte |
| ReplyFragments.SentHonest | model/sublayer-protocol.cc:99-133 | What a link makes of a packet is as its origin says: the first fragment of a reply, if it holds the headers, reads as the reply of a shorter content, and no fragment of anything else reads as a reply |
| Wire.CopyOfExactly | model/oicn-server-application.cc:126-136 | What a string is copied to is the string up to its first NUL, and zeros to its size |
| ReplyFragments.CopyHasNoReply | model/oicn-server-application.cc:126-136 | What a server sends for a content, a string copied into a zeroed buffer, has no part that reads as a reply |
| ReplyFragments.LaterFragmentExactly | model/sublayer-protocol.cc:103-129 | Some link makes of a packet a later fragment that reads as a reply if and only if the packet reads as one from some 8-byte boundary on, within twice the distance from its start |
| ReplyFragments.HarmlessExactly | model/sublayer-protocol.cc:103-129 | Nothing any link makes of a packet reads as a reply if and only if the packet does not and has no such boundary |
| Network.SetKeepsDirectory | model/cache-manager.cc:86-126 | One SetEntry keeps the directory exact, on the refresh path and when nothing is evicted as well |
| Network.RunKeeps | model/icn-manager.cc:94-113 | In every run of any number of routers with any mix of policies and links, the directory lists each name once for each router that caches it and for no other, every cached copy is as much of the server's content as its way has left, and so is every packet that starts a reply, marked or not |
| ContentDelivery.CopyIsContentExactly | model/sublayer-protocol.cc:76-133 | In every reachable state a cached copy is the server's content if and only if the content has no NUL and its whole reply fits every link it has crossed from the server, the ways of other copies included |
| ContentDelivery.ReplyIsContentExactly | model/sublayer-protocol.cc:76-133 | What starts a reply on the network is a reply with a front part of the server's content, marked or not, and with all of a content without NUL if and only if the whole reply fits every link on its way |
| ContentDelivery.KeptExactly | model/cache-with-lru.cc:70-79 | What is kept of a content is its text exactly if the room was large enough, and all of it exactly if it has no NUL and its reply fits every link on the way |
| ContentDelivery.NothingCutExactly | model/ipv4-router-l3-protocol.cc:798-811 | No packet of a run that starts a reply for a name has been cut if and only if no event put such a packet on a link it does not fit and whose fragments have room for the headers; then no copy has been cut either |
| Redirects.RedirectFindsContent | model/icn-manager.cc:311-326 | In every reachable state a router picked for a name caches it, with as much of the server's content as has been left |
| Redirects.QueryOutcome | model/icn-manager.cc:248-345 | In every reachable state a client's query is redirected with RCODE 6 to a router that caches the name if there is one, else to a server it is registered for if there is one, and else answered with RCODE 7 alone |
| Redirects.RedirectIsServed | model/icn-router.cc:126-217 | In every reachable state in which that router still caches the name, the redirect makes it send the client as much of the content as has been left, all of it if and only if it has no NUL and its reply fits every link on its way |
| Redirects.RouterRuns | model/cache-manager.cc:74-127 | In the network each router's cache goes through a run of its own, of the stores and hits that events bring it |
| Redirects.LeavesOnlyDisplaced | model/cache-manager.cc:86-118 | A cached name is gone after an event if and only if that event brings another, new name to the full cache and this one was next to go |
| Redirects.RecencyDecides | model/icn-router.cc:210-217 | After any run a redirect to an LRU or FIFO router finds its content if and only if it has been stored (or, for LRU, served) there and fewer other names than the cache holds have been since |
| Redirects.FreshnessProtects | model/icn-router.cc:210-217 | A redirect to an LFU or Universal router finds its content, whatever the traffic, if it comes within the freshness time of the copy's timestamp |
| ReplyDelivery.ReturnedTiles | model/sublayer-protocol.cc:76-133 | A router's check leaves the fragments of a reply the fragments of that reply, with its kind as the router sets it if the first fragment is cached |
| ReplyDelivery.ClientGetsReply | model/ipv4-router-l3-protocol.cc:507-511 | A reply split at its source and sent through any row of routers, each checking and splitting again, reaches the client whole and of some kind, in any order with any duplicates, if and only if its last fragment survived every link |
| Limits.FirstFragmentIsCached | model/sublayer-protocol.cc:130-133 | A run in which a split reply leaves a truncated copy in a router and the directory lists it |
| Limits.LaterFragmentIsCached | model/sublayer-protocol.cc:107-119 | A datagram of another application whose second fragment is cached as the content of a name |
| Limits.RedirectComesTooLate | model/icn-router.cc:210-217 | A run in which a redirect finds its content displaced |
| ZipfClient.OICNZipfClient.SetZipf | model/oicn-zipf-client.cc:137-155 | The in-place normalisation leaves the distribution function of the weights |
| ZipfClient.CumulativeIsDistribution | model/oicn-zipf-client.cc:142-153 | It rises strictly from 0 to exactly 1, each step by the share of its weight |
| ZipfClient.OICNZipfClient.GetNextContentIndex | model/oicn-zipf-client.cc:157-179 | The content chosen is the one whose step of the distribution contains the random number |
| ZipfClient.StepUnique | model/oicn-zipf-client.cc:168-177 | There is only one such step |

## Left out

- Sockets, scheduling, tracing, routing, ARP, ICMP formats, checksums, the interfaces and the helpers: ns-3 plumbing. Headers of ns-3 itself are modelled by the fields the code uses; a UDP header is 8 bytes that are put back as they were taken off.
- C++ leaves some things undefined that the model fixes: a float out of the range of 32 bits saturates, an index divided by zero is 0, bytes a header reserves but does not write are zero, and reading past the end of a packet makes a read fail.
- The buffers of `CreateEntry` and `Find`: a string without NUL ends with its buffer, although the code may read on behind it.
- Messages with several questions or answers: the loops are modelled, and what is sent is stated for one question and one answer, which is all that clients send.
- The server application, the plain client and `Content::GetContent`: contents are given as a map from names to data, and names as lists.
- A cache of size 0, and changing the size or the freshness time of a cache in use.
- Random numbers, `pow` and floating-point error in the Zipf client: the weights are any positive reals and the random number is a parameter.
- Multicast forwarding; in the network state machine reassembly at the hosts, which is the subject of `DatagramDelivery` and `ReplyDelivery`; and links with an MTU below 28, over which IPv4 does not run (section 3.2 of RFC 791 asks for 68).
- Network.RunKeeps: asks of packets that are not replies that no fragment of theirs reads as one, since `LaterFragmentIsCached` shows what happens otherwise; `HarmlessExactly` says which packets these are.
- Ipv4Fragmentation.DoFragmentation: asks for a packet whose end does not lie beyond byte 65535 of its datagram, which the 16-bit offset fields presuppose, and for an MTU with room for 8 bytes if there is a payload, since `SplittingEnds` shows that the loop does not end otherwise.
- ZipfClient.OICNZipfClient.GetNextContentIndex: the loop in which the code draws again until the random number is not zero is the precondition that it is positive.
