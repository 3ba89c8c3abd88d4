# Reflex: a verified model

Reflex is a proxy written in Rust. This project models the parts of it whose correctness rests on state that
outlives a call, on interleavings, or on two pieces of code agreeing about bytes, and proves what those parts promise:

- the TUN system stack's TCP translation table, the packet rewriting that goes through it, and the one's-complement
  checksums (`TcpNat`, `Packet`, `Checksum`);
- the UID range algebra behind the Linux routing rules (`UidRanges`);
- the FakeIP pool, its write log, its restoration after a restart and its answers on the wire
  (`FakeIp`, `FakeIpPersistence`, `FakeIpReply`);
- the DNS resolver: deduplication of concurrent queries, the two-tier cache, the order in which servers are built,
  and the wire-format walkers (`Inflight`, `DnsCache`, `Toposort`, `DnsWire`, `DnsEncoded`, `DnsQuery`);
- the Shadowsocks framed stream, read and written, what a blocking stream underneath does to it, and the server's
  decryptor (`SsStream`, `SsWire`, `SsServer`);
- the Hysteria2 codecs: variable-length integers, QPACK literals, UDP fragments (`Varint`, `Qpack`, `UdpFragments`);
- the cycle check on outbound groups (`GroupCycles`);
- the ClientHello that the REALITY outbound prints and the sniffer parses (`ClientHello`).

Code that changes state in place is a class or a loop here, proved against a function or relation on values; the
theorems are then about those functions and about whole runs of them. Time is an integer handed in by the caller, the
database is a map behind a queue, channels are values, the upstream DNS server may answer anything at any moment, and
the AEAD is any pair of functions in which opening undoes sealing; where a result needs one that is bound to its nonce,
`SsWire.TransparentIsSoundAndBound` shows that there are such pairs.

`dafny verify dfyconfig.toml` checks everything.

## What turned out not to hold everywhere

Each of these is stated with the exact condition under which the code does meet the property.

- A QPACK value of exactly 127 bytes is written with a saturated prefix and no continuation byte. A list of ASCII
  headers survives if and only if it contains no such value (`Qpack.RecoversUnlessLength127`).
- The QPACK parser adds a length from the wire to its position in 64 bits. The sum wraps and the slice that follows
  panics if and only if some length it reads ends at 2^64 or beyond (`Qpack.InBoundsExactlyWhenLengthsFit`); thirteen
  bytes are enough (`Qpack.CrashesOnHugeName`).
- The UDP receiver indexes out of bounds if and only if the first datagram it is handed is readable, is not the only one
  of its message and has a number that is not below its count (`UdpFragments.OutOfBoundsExactlyWhen`). The sender's own
  datagrams do that if and only if the numbers cut to a byte do, which with 256 fragments every one does and with at most
  255 none does (`UdpFragments.OwnDatagramOutOfBoundsExactlyWhen`).
- More than 255 UDP fragments never reassemble to the payload (`UdpFragments.NeverWholeBeyond255`).
- The IPv4 header checksum covers 20 bytes whatever the header length says. The full header verifies if and only if the
  option words sum to a multiple of 0xFFFF (`Packet.OptionsAreNotCovered`).
- After a restart a FakeIP cursor lies inside its pool if and only if the last in-range row read was not the all-ones
  address, whose successor wraps to zero (`FakeIpPersistence.CursorInsideUnlessWrapped`). No row of that kind is ever
  written by a running store, so restarts of the program's own tables are sound
  (`FakeIpPersistence.AnyNumberOfRestartsIsSound`).
- A FakeIP address lies strictly inside its range if and only if the prefix leaves two host bits
  (`FakeIp.StrictlyInsideNeedsTwoHostBits`). A smaller range has one address, shared by all domains in turn, if and only
  if that address is not the last of the address space or beyond it (`FakeIp.TinyRangeHasOneAddress`); the maps stay
  inverse even then (`FakeIp.AllocateKeepsMirrored`).
- Restored FakeIP maps are inverse if and only if no domain stands in two in-range rows of a family, as it can once a
  range was narrowed and widened again (`FakeIpPersistence.RestoredIsMirroredExactlyWhen`).
- The FakeIP server copies whatever stands behind the question into its reply and announces one answer. The client finds
  the allocated address if and only if nothing stood there, or by chance that address
  (`FakeIpReply.ReplyLeadsBackToName`); an extended query with its OPT record gets none
  (`FakeIpReply.ExtendedQueryGetsNoAddress`).
- Two cache keys share a row on disk if and only if transport and name run together alike, the types agree and the
  lengths of the transports agree modulo 65536 (`DnsCache.DiskKeysCollideExactlyWhenAlike`); that is a collision if and
  only if the lengths differ (`DnsCache.AlikeIsEqualAtEqualLength`), which below 65536 bytes they never do.
- A cached answer is the latest one set under its key if and only if, when memory gives it, its entry was not reloaded
  from a row that another response was queued for or lost to, and otherwise its row is not such a row
  (`DnsCache.LatestExactlyWhenNotBehind`). A reloaded entry stays behind after the queue has drained
  (`DnsCache.OlderRowIsServed`).
- A write to the Shadowsocks stream is reported complete whatever part of it the stream underneath takes; bytes are
  missing from the wire if and only if some write was not taken whole (`SsWire.WireIsWholeExactlyWhenTaken`). A write
  that blocks has already spent its nonces: the reader gets exactly what was completed before it
  (`SsWire.BlockedWriteSilencesTheRest`), which is everything if and only if nothing was completed after it
  (`SsWire.AllHeardExactlyWhenNothingAfterBlock`).
- A read that looks like the end of the stream comes before the end if and only if some frame is empty
  (`SsStream.EmptyReadExactlyWhenEmptyFrame`); the writer makes none (`SsStream.ReaderGetsWhatWasWritten`).
- The server reads the client's stream if and only if the first payload has 1..0x3FFF bytes
  (`SsServer.ServerGetsWhatWasWritten`).
- The answer walkers recognise a pointer only at the start of an owner name; they get past a name if and only if it is
  all labels or a lone pointer (`DnsEncoded.SkipNameOver`).
- A response whose answers all have lifetime 0xFFFFFFFF counts as having none (`DnsEncoded.CachedTtlIsLeast`).
- A varint round-trips if and only if it is below 2^62, the writer masking the rest (`Varint.DecodeUndoesWrite`).
- The UID complement is widened by ranges that reach beyond its bounds and repeats u32::MAX when both a range and the
  upper bound end there (`UidRanges.ComplementMeansGap`); its one caller stays clear of both (`UidRanges.GapIsComplement`).
- The comment above the fragment sender says the address travels in the first fragment only and then takes it back; the
  code, and the model, put it in every fragment (src/outbound/hy2.rs:1182-1184).

## Model

| member | source | states |
|---|---|---|
| `Inflight.InflightTable.TryLeadInflight` | src/dns/cache.rs:161-174 | A caller leads exactly when its key was not listed, and is then listed with an open channel; otherwise it gets the channel of the query listed under the key and nothing changes. |
| `Inflight.InflightTable.CompleteInflight` | src/dns/cache.rs:176-195 | A listed key is removed and its channel sent to or closed; an unlisted key changes nothing. |
| `Inflight.PatchId` | src/dns/mod.rs:640-649 | Only the two id bytes change, and only if both messages have them. |
| `Inflight.NextKeepsInv` | src/dns/mod.rs:443-480 | Every step of every query keeps table, channels, phases and answers consistent. |
| `Inflight.ListedExactlyWhileLed` | src/dns/cache.rs:161-195 | In every interleaving a key is listed exactly while some query leads it, and never two queries at once. |
| `Inflight.EveryAnswerIsAccountedFor` | src/dns/mod.rs:443-480 | In every interleaving a waiter's answer is its leader's bytes under the waiter's own id; a query that retried had a leader of its key that failed; one that led or retried asked upstream exactly once, all others never; every successful answer is a response known for that key, as it came or under the query's id. |
| `Inflight.AnswersAreWhatWasSaid` | src/dns/mod.rs:417-480 | In every interleaving, failures included: a query that led or retried missed the cache, was told something by the upstream exactly once and answers exactly that; one that shared missed the cache and was told nothing; one whose lookup found something answers exactly that under its own id, and a stale entry is refreshed once without touching the answer. |
| `Inflight.StoredExactlyWhatWasBrought` | src/dns/mod.rs:430-472 | After any run the responses stored under a key are those of the start and the cacheable ones the upstream returned to queries of that key, refreshes included; nothing else. |
| `Inflight.StoredAnswersServeLaterQueries` | src/dns/mod.rs:417-440 | A query that has not looked yet can be answered with a response from the cache if and only if that response is one of those, and then asks nobody. |
| `Inflight.WaitersAskOnlyAfterFailure` | src/dns/mod.rs:443-480 | In every reachable state a query has asked upstream at most once, and has asked only if it leads or led, or if the leader of its key it had subscribed to has failed. |
| `Inflight.NobodyIsStranded` | src/dns/mod.rs:443-480 | In every reachable state an unfinished query, or the leader it waits for, can take a step. |
| `Inflight.EveryRunFinishes` | src/dns/cache.rs:161-195 | No run of n queries takes more than 7n steps, and one that cannot go on has finished every query and emptied the table. |
| `DnsCache.DiskKeysCollideExactlyWhenEqual` | src/experimental/cache_file.rs:434-445 | For transports under 65536 bytes two disk keys are equal if and only if the memory keys are. |
| `DnsCache.DiskKeysCollideExactlyWhenAlike` | src/experimental/cache_file.rs:434-445 | For all transports: two disk keys are equal if and only if transport and name run together alike, the types are equal and the transports' lengths agree modulo 65536. |
| `DnsCache.AlikeIsEqualAtEqualLength` | src/experimental/cache_file.rs:434-445 | Keys that share a row are the same memory key if and only if their transports are equally long. |
| `DnsCache.LongTransportsCollide` | src/experimental/cache_file.rs:434-445 | A collision: a lower-case transport whose length is a multiple of 65536 shares its disk key with an empty transport and a longer name. |
| `DnsCache.KeysIgnoreCase` | src/dns/cache.rs:225-242 | Two questions share an entry if and only if they go to one server and ask for one type of one name, names differing in the case of letters counting as one. |
| `DnsCache.DnsCache.Get` | src/dns/cache.rs:90-139 | The answer and both tiers after a lookup, which entry is dropped being the environment's choice. |
| `DnsCache.DnsCache.GetPersisted` | src/dns/cache.rs:113-138 | The same for a key memory does not answer for. |
| `DnsCache.DnsCache.Set` | src/dns/cache.rs:142-152 | The tiers after a store, the lifetime cut to the cap and raised to one second, alike in memory and in the queued row. |
| `DnsCache.DnsCache.InsertMemory` | src/dns/cache.rs:211-216 | The entry is there afterwards and at most one other is dropped. |
| `DnsCache.DnsCache.WriteOne` | src/experimental/cache_file.rs:330-341 | The oldest queued row is written and dequeued. |
| `DnsCache.DnsCache.Purge` | src/experimental/cache_file.rs:365-396 | Exactly the rows that have expired go. |
| `DnsCache.DnsCache.Restart` | src/dns/cache.rs:69-88 | A restart loses memory and what was queued, and nothing else. |
| `DnsCache.RunKeepsValid` | src/dns/cache.rs:90-152 | In every run, restarts included, nothing is held that was not set nor for longer than it was set for, and of every row and entry it is known whether it is the latest. |
| `DnsCache.AnswersAreYoung` | src/dns/cache.rs:90-139 | In every run, restarts included, a hit was set under a key with the same row (for transports under 65536 bytes, the same key) by a call whose own lifetime is not over and whose age is below the cap, the first second being always granted; for a stale answer that was so a window earlier. |
| `DnsCache.SparedIsServed` | src/dns/cache.rs:90-152 | Conversely, a response that was set and since then neither set again, dropped, lost by a restart nor asked for past use is the answer at every moment below both bounds, and a stale answer for a window after that. |
| `DnsCache.CarriedOverIsServed` | src/dns/cache.rs:113-138 | A response whose row was written before the next restart, and since then neither set again nor purged, is served across any number of restarts and evictions until its lifetime or the cap ends. |
| `DnsCache.LatestExactlyWhenNotBehind` | src/dns/cache.rs:90-139 | In every run an answer is the latest set under its key if and only if it does not come from an entry reloaded behind the queue, or from a row that another response is queued for or lost to. |
| `DnsCache.ReloadingNeverExtends` | src/dns/cache.rs:121-127 | What is reloaded from disk expires no later than its row. |
| `DnsCache.OlderRowIsServed` | src/dns/cache.rs:113-127 | A run after which, with nothing queued and the newer response on disk, the older one is the answer. |
| `TcpNat.Translator.LookupOrInsert` | src/inbound/tun.rs:142-182 | A known source keeps its port; a new one gets the first free port in cyclic order, or the port of a least recently active session when none is free; the maps stay inverse. |
| `TcpNat.Translator.ScanForFree` | src/inbound/tun.rs:151-167 | Nothing is found exactly when all 50001 ports are taken; what is found is the first free port from the cursor on. |
| `TcpNat.Translator.OldestPort` | src/inbound/tun.rs:169-175 | No session was active earlier than the one found. |
| `TcpNat.Translator.LookupBack` | src/inbound/tun.rs:197-202 | The source and the destination recorded for the port, refreshed; nothing changes for an unknown port. |
| `TcpNat.Translator.Gc` | src/inbound/tun.rs:204-217 | Exactly the sessions idle for longer than the timeout leave both maps. |
| `TcpNat.NewSourceGetsNextFree` | src/inbound/tun.rs:142-195 | A new source gets a session to its destination on the first free port at or behind the index, or failing that the first free one from 10000 on, and the index moves behind it; in a full table it gets the port of a session quiet for longest. |
| `TcpNat.OutIsDetermined` | src/inbound/tun.rs:142-195 | For a known source or with a free port, the port and the whole table afterwards are determined. |
| `TcpNat.StepKeepsInverse` | src/inbound/tun.rs:142-217 | Every operation keeps the two maps mutually inverse with ports in 10000..60000. |
| `TcpNat.StepKeepsSession` | src/inbound/tun.rs:142-217 | A session survives a step unless it idled out or the pool was full and no session was older; a collection removes it exactly when it idled out. |
| `TcpNat.RunKeepsInverse` | src/inbound/tun.rs:142-217 | In every run every state is inverse. |
| `TcpNat.RunKeepsSession` | src/inbound/tun.rs:142-217 | In every run a session keeps its port and recorded destination up to the first step that may end it. |
| `TcpNat.ActivityIsLastUse` | src/inbound/tun.rs:142-217 | In every run the activity a session is collected or evicted by is the time of the last packet out from its source or back to its port. |
| `TcpNat.PortsAreDistinct` | src/inbound/tun.rs:142-217 | From an empty table on, live sources never share a port and each port leads back to its source, within 10000..60000. |
| `Checksum.AddWords` | src/inbound/tun.rs:1124-1133 | The 32-bit accumulator gets the word sum and never overflows. |
| `Checksum.FoldAndInvert` | src/inbound/tun.rs:1134-1138 | Folding carries computes the one's-complement residue, then complements it. |
| `Checksum.InternetChecksum` | src/inbound/tun.rs:1124-1138 | The complement of the one's-complement sum (section 1 of RFC 1071), for up to 65535 bytes. |
| `Checksum.ChecksumWithPseudoV4` | src/inbound/tun.rs:1205-1237 | The same over the pseudo header, whose words are in plain numbers the halves of both addresses, the protocol and the length, and the data (section 3.1 of RFC 9293). |
| `Checksum.ChecksumWithPseudoV6` | src/inbound/tun.rs:1239-1263 | The same over the words of both addresses, the length, the protocol and the data (section 8.1 of RFC 8200). |
| `Checksum.SummedVerifies` | src/inbound/tun.rs:1124-1150 | Data with the computed checksum written into it sums to 0xFFFF. |
| `Packet.RecomputeIpv4Checksum` | src/inbound/tun.rs:1141-1150 | The buffer becomes the same packet with its 20-byte header checksum right. |
| `Packet.RecomputeTcpChecksumV4` | src/inbound/tun.rs:1153-1166 | The buffer becomes the same packet with its TCP checksum right. |
| `Packet.RecomputeTcpChecksumV6` | src/inbound/tun.rs:1168-1181 | The same for IPv6. |
| `Packet.RewriteV4Correct` | src/inbound/tun.rs:741-805 | A rewritten packet runs between the new endpoints; the header sums to 0xFFFF, and so do the halves of its addresses, 6, the length of its segment and the words of the segment at any receiver; no byte outside addresses, ports and checksums has changed. |
| `Packet.RewriteV6Correct` | src/inbound/tun.rs:811-870 | The same for IPv6, over the words of its addresses, 6, the length and the words of its segment. |
| `Packet.OptionsAreNotCovered` | src/inbound/tun.rs:1141-1150 | With options the full header verifies if and only if the option words sum to a multiple of 0xFFFF. |
| `Packet.IhlCountsWords` | src/inbound/tun.rs:638-641 | The header length is four times the low half of the first byte, whatever the version above it. |
| `Packet.NotUnicastV4Is` | src/inbound/tun.rs:789-791 | No session is opened to 0.0.0.0, 224.0.0.0/4 and 255.255.255.255, and to everything else one is. |
| `Packet.NotUnicastV6Is` | src/inbound/tun.rs:855-857 | The same for :: and ff00::/8. |
| `Packet.HandleTcpV4` | src/inbound/tun.rs:741-808 | Which packets are dropped, redirected or restored, the table step taken and the packet written back. |
| `Packet.HandleTcpV6` | src/inbound/tun.rs:811-870 | The same for IPv6. |
| `Packet.ReplyComesFromRecordedDestinationV4` | src/inbound/tun.rs:741-808 | Out, through any run that does not end the session, swapped by the kernel and back: the reply comes from the recorded destination to the original source and verifies. |
| `Packet.ReplyComesFromRecordedDestinationV6` | src/inbound/tun.rs:811-870 | The same for IPv6. |
| `UidRanges.SubtractRanges` | src/inbound/tun.rs:1300-1321 | Denotes the set difference, still ordered, with no overflow at either end of u32. |
| `UidRanges.ComplementRanges` | src/inbound/tun.rs:1323-1336 | The loop's result for all ranges and bounds. |
| `UidRanges.ComplementMeansGap` | src/inbound/tun.rs:1323-1336 | For all sorted ranges and all bounds: exactly which numbers come out, saturation at u32::MAX included, still sorted and disjoint. |
| `UidRanges.GapIsComplement` | src/inbound/tun.rs:1286-1298 | For ranges within the bounds, or one number beyond, that is the complement. |
| `UidRanges.MergeRanges` | src/inbound/tun.rs:1338-1353 | Denotes the same set, sorted, disjoint and non-adjacent. |
| `UidRanges.CanonicalIsUnique` | src/inbound/tun.rs:1338-1353 | A set has one canonical form, so merging computes a function of the set. |
| `UidRanges.BuildExcludedUidRanges` | src/inbound/tun.rs:1276-1298 | With an include list, exactly 0..u32::MAX-1 without (include minus exclude); without one, exactly the exclude list; in both cases sorted, disjoint and non-adjacent. |
| `FakeIp.CidrInWidth` | src/dns/upstream.rs:1387-1428 | Network and broadcast address fit the family's width, span exactly the host bits and enclose the address. |
| `FakeIp.CidrIsAligned` | src/dns/upstream.rs:1387-1428 | The network address is the multiple of the size of the range at or below the address. |
| `FakeIp.InRangeExactlyWhenSamePrefix` | src/dns/upstream.rs:1387-1428 | An address is in a parsed range if and only if it agrees with the configured address in all but the host bits. |
| `FakeIp.CidrIsUsable` | src/dns/upstream.rs:1387-1428 | A parsed range has an address strictly inside if and only if the prefix is at most /30, or /126 for IPv6. |
| `FakeIp.InitialHasInv` | src/dns/upstream.rs:1110-1121 | A new store over such ranges satisfies the invariant. |
| `FakeIp.AllocateKeepsInv` | src/dns/upstream.rs:1294-1350 | For ranges with two host bits allocation keeps cursors inside and both maps inverse per family, and yields an address exactly when the family is configured. |
| `FakeIp.AllocateKeepsMirrored` | src/dns/upstream.rs:1294-1350 | For all ranges allocation keeps the maps of both families inverse. |
| `FakeIp.TinyRangeHasOneAddress` | src/dns/upstream.rs:1294-1350 | In a range with at most one host bit every fresh allocation takes one and the same address if and only if that address is below all ones. |
| `FakeIp.FreshIsStrictlyInside` | src/dns/upstream.rs:1294-1350 | A fresh address lies strictly between network and broadcast address and leads back to its domain. |
| `FakeIp.AllocateLeavesOtherFamily` | src/dns/upstream.rs:1294-1350 | Allocation in one family changes nothing in the other. |
| `FakeIp.LiveDomainsNeverShare` | src/dns/upstream.rs:1294-1350 | Live domains of a family never share an address, whatever the ranges. |
| `FakeIp.StrictlyInsideNeedsTwoHostBits` | src/dns/upstream.rs:1387-1434 | The first address of a new store is strictly inside if and only if the prefix is at most /30, or /126 for IPv6. |
| `FakeIp.RunKeepsInv` | src/dns/upstream.rs:1294-1350 | Every run of requests keeps the invariant and the ranges. |
| `FakeIp.RunStaysStrictlyInside` | src/dns/upstream.rs:1294-1350 | In every run from a new store every live address lies strictly between network and broadcast address. |
| `FakeIp.AddressLivesOneTurn` | src/dns/upstream.rs:1294-1350 | A fresh address leads back to its domain through the next N - 1 fresh allocations of its family, whatever else happens, and is reassigned exactly at the N-th. |
| `FakeIpPersistence.LoggedNamesTheAnswer` | src/dns/upstream.rs:1294-1350 | What a request queues names the address it is answered with and its time: a store of the domain if the domain had no address, a touch otherwise, nothing without an answer. |
| `FakeIpPersistence.RowExactlyWhenKeptUp` | src/experimental/cache_file.rs:299-329 | After any operations and cleanups in any order a row stands for an address if and only if the address was stored, or stood there before, and since its last store no cleanup had a cutoff above its last use; it names the domain of the last store and the time of the last store or touch. |
| `FakeIpPersistence.MissingExactlyWhenUnused` | src/experimental/cache_file.rs:299-429 | Once the writer has caught up with a run, the live pairs are those stored, and one of them is missing from the table if and only if some cleanup had a cutoff above its last use. |
| `FakeIpPersistence.WithoutCleanupsAllIsStored` | src/experimental/cache_file.rs:299-329 | Without cleanups the pairs in the table are then exactly the live ones. |
| `FakeIpPersistence.WorkedLogIsWithin` | src/experimental/cache_file.rs:299-329 | Applying the whole log with purges anywhere between leaves a subset of the pairs live in memory. |
| `FakeIpPersistence.AnyLogPrefixIsWithin` | src/experimental/cache_file.rs:398-429 | Applying any prefix of the log leaves a subset of the pairs live at some moment of the run. |
| `FakeIpPersistence.RestoredIsSound` | src/dns/upstream.rs:1123-1163 | Restoring in-range rows of distinct domains rebuilds exactly those pairs, one to one, with the cursors inside. |
| `FakeIpPersistence.RestoredIsMirroredExactlyWhen` | src/dns/upstream.rs:1123-1163 | For all tables and ranges the maps restored for a family are inverse if and only if no domain stands in two of its in-range rows. |
| `FakeIpPersistence.RestartIsSound` | src/dns/upstream.rs:1123-1163 | After any run, any written prefix and any purges, a restart with the same ranges is one to one, inside its pools and holds exactly the pairs of the table, whatever the order of the rows. |
| `FakeIpPersistence.AnyNumberOfRestartsIsSound` | src/dns/upstream.rs:1123-1163 | The same after any number of lives of the process, each with its own run, written prefix and purges. |
| `FakeIpPersistence.SoundFromTheFirstStart` | src/dns/upstream.rs:1092-1172 | From the first start with an empty table on, after any number of lives: one to one, inside the pools, and an address stands for the domain it was last stored with if and only if no cleanup since had a cutoff above its last use. |
| `FakeIpPersistence.CursorInsideUnlessWrapped` | src/dns/upstream.rs:1123-1163 | The restored cursor is inside the pool if and only if the last in-range row was not the all-ones address. |
| `FakeIpPersistence.FakeIpStore.constructor` | src/dns/upstream.rs:1092-1172 | The object holds the restored store, or the empty one without a cache file. |
| `FakeIpPersistence.FakeIpStore.New` | src/dns/upstream.rs:1088-1115 | Construction fails exactly when neither range is configured. |
| `FakeIpPersistence.FakeIpStore.RestoreRecord` | src/dns/upstream.rs:1128-1153 | One row restored, or skipped when out of range. |
| `FakeIpPersistence.FakeIpStore.AllocateV4` | src/dns/upstream.rs:1294-1321 | The store moves as allocation says, the address is returned and the matching store or touch is queued. |
| `FakeIpPersistence.FakeIpStore.AllocateV6` | src/dns/upstream.rs:1323-1350 | The same for IPv6. |
| `FakeIpReply.IsExcluded` | src/dns/upstream.rs:1236-1247 | Excluded exactly by a listed name, a listed suffix, or the suffix itself without its dots. |
| `FakeIpReply.ExcludedExactlyWhen` | src/dns/upstream.rs:1236-1247 | A name is excluded if and only if it is listed, ends with a listed suffix or is such a suffix without its leading dots, and case plays no part. |
| `FakeIpReply.Respond` | src/dns/upstream.rs:1249-1292 | Store, reply and queued operations after any query, malformed ones included. |
| `FakeIpReply.ReplyAnswersTheQuery` | src/dns/upstream.rs:1249-1292 | Whatever comes in, the reply has its id and the response bit, code 3 if and only if it asks for the address of an excluded name, and the question with one answer if and only if an address was found; otherwise it is a bare header. |
| `FakeIpReply.AnswerIsAboutTheQuestion` | src/dns/upstream.rs:1363-1383 | Behind what the query carried stands one more record, whose owner points to the question and whose type is that of the family. |
| `FakeIpReply.ReplyCarriesAddress` | src/dns/upstream.rs:1363-1383 | The first address a client extracts from the reply is that of the first record behind the question, which is the answer if the message carried none. |
| `FakeIpReply.ReplyLivesOneSecond` | src/dns/upstream.rs:1363-1383 | A client may keep the reply for one second. |
| `FakeIpReply.ReplyLeadsBackToName` | src/dns/upstream.rs:1249-1292 | A message asking for a name that is not excluded, in a family that is configured and admitted, gets that name an address in range which leads back to the very name; the client finds it if and only if the message carried nothing behind its question, and finds none for any other name. |
| `FakeIpReply.BuiltQueryLeadsBackToName` | src/dns/upstream.rs:1249-1292 | The reply to a query this program builds carries such an address if and only if the name is served. |
| `FakeIpReply.ExtendedQueryGetsNoAddress` | src/dns/upstream.rs:1363-1383 | The client finds no address in the reply to a query with an OPT record. |
| `DnsQuery.BuildQuery` | src/dns/mod.rs:894-909 | The query holds the non-empty labels of the name, the type and class IN. |
| `DnsQuery.QueryIsOneQuestion` | src/dns/mod.rs:894-909 | A built message is a query of one question, recursion desired, and no records. |
| `DnsQuery.ExtractQname` | src/dns/mod.rs:583-612 | The labels up to a zero byte or pointer, converted to text and joined by dots, on any bytes. |
| `DnsQuery.ExtractQtype` | src/dns/mod.rs:614-638 | The two bytes behind the name, on any bytes. |
| `DnsQuery.ExtractFirstIp` | src/dns/mod.rs:911-986 | The walk on any bytes, in bounds and terminating. |
| `DnsQuery.QueryKeepsNameAndType` | src/dns/mod.rs:583-638 | Name and type come out of a built query as they went in, for labels that are text. |
| `DnsQuery.FirstIpIsFirstAddress` | src/dns/mod.rs:911-986 | On an encoded response the address found is the data of the first answer of the right type and length, if there is one. |
| `DnsWire.ExtractMinTtl` | src/dns/mod.rs:789-849 | The scan on any bytes, in bounds and terminating. |
| `DnsWire.ExtractSoaTtl` | src/dns/mod.rs:697-762 | The search for the first SOA on any bytes, in bounds and terminating. |
| `DnsWire.ExtractMinTtlOrNegative` | src/dns/mod.rs:681-695 | Negative responses go by the SOA, capped at 300, all others by their answers. |
| `DnsWire.SkipNameLoop` | src/dns/mod.rs:764-778 | Skips a name on any bytes, in bounds, always forward. |
| `DnsEncoded.SkipNameOver` | src/dns/mod.rs:764-787 | Every name is skipped exactly by `skip_name`, and by the answer walkers if and only if it is all labels or a lone pointer. |
| `DnsEncoded.CachedTtlIsLeast` | src/dns/mod.rs:789-849 | The lifetime cached for an encoded response is the least of all its answers' and belongs to one of them; when all are 0xFFFFFFFF there is none. |
| `DnsEncoded.NegativeTtlIsSoa` | src/dns/mod.rs:681-762 | For an empty answer it is the least of the first SOA's lifetime, its MINIMUM and 300 (section 5 of RFC 2308), whatever records precede or follow the SOA. |
| `DnsEncoded.CacheableExactlyWhen` | src/dns/mod.rs:664-678 | A response is stored if and only if it has answers and no error, or an SOA among its authority records and either no error or the code for a name that does not exist. |
| `Toposort.Collect` | src/dns/mod.rs:990-1020 | Every resolver is found and counted, or the failure is due to a missing resolver or to a closed chain: a server that names itself, or two that name each other. |
| `Toposort.ToposortServers` | src/dns/mod.rs:990-1039 | Succeeds if and only if every resolver exists and no chain of resolvers closes; the order is a permutation with each server after its resolver. Of several servers with one tag the last resolves for it. |
| `Toposort.StuckMeansCyclic` | src/dns/mod.rs:1021-1039 | Servers that all wait for one another contain a closed chain. |
| `Toposort.PlacedMeansAcyclic` | src/dns/mod.rs:1021-1039 | An order with each server after its resolver rules out closed chains. |
| `Toposort.BuildUpstreams` | src/dns/mod.rs:106-119 | In that order the resolver lookup never fails. |
| `SsStream.SsXhttpStream.Wrap` | src/outbound/shadowsocks.rs:556-585 | Salt and first frame go out, and the stream goes on with the next nonce and no salt of its own. |
| `SsStream.SsXhttpStream.PollRead` | src/outbound/shadowsocks.rs:403-483 | One poll as a function of buffers, counter and input. |
| `SsStream.SsXhttpStream.PollWrite` | src/outbound/shadowsocks.rs:488-537 | Frames of 1..0x3FFF bytes in order, two nonces each; what the stream underneath takes reaches the wire, and the write counts as complete unless that stream blocks or fails. |
| `SsStream.AllButTheLastAreFull` | src/outbound/shadowsocks.rs:488-537 | Every frame of a write but the last carries 0x3FFF bytes. |
| `SsWire.WireIsWholeExactlyWhenTaken` | src/outbound/shadowsocks.rs:532-537 | Whatever is blocked, the wire falls short of the frames of the completed writes if and only if one of them was not taken whole. |
| `SsWire.WireIsThatOfCompletedWrites` | src/outbound/shadowsocks.rs:488-537 | When nothing is blocked the wire carries exactly the frames of the writes if and only if each was taken whole. |
| `SsWire.BlockedWriteSilencesTheRest` | src/outbound/shadowsocks.rs:488-537 | For a cipher bound to its nonce, the reader gets exactly the data completed before the first write that blocked after sealing. |
| `SsWire.AllHeardExactlyWhenNothingAfterBlock` | src/outbound/shadowsocks.rs:488-537 | That is all that was reported complete if and only if nothing was completed after a blocked write. |
| `SsStream.PollConserves` | src/outbound/shadowsocks.rs:403-483 | A poll hands out the front of what remained and loses nothing; the counter moves by two per frame opened and never on a peek; a poll that cannot decrypt leaves nothing behind it. |
| `SsStream.PollsDeliverThePlaintext` | src/outbound/shadowsocks.rs:403-483 | On any ciphertext, good or bad, a run delivers a prefix of the plaintext of the whole, and all of it by the end of the input or the first frame that does not decrypt. |
| `SsStream.EnoughPollsDeliverAll` | src/outbound/shadowsocks.rs:403-483 | Enough polls with room for a byte deliver all of it, however it was split. |
| `SsStream.SplittingIsInvisible` | src/outbound/shadowsocks.rs:403-483 | Two readers of one ciphertext, good or bad, never disagree, however it was cut and whatever their buffers, and at their end they have delivered the same. |
| `SsStream.NoReadIsEmpty` | src/outbound/shadowsocks.rs:403-483 | Without empty frames no read into a buffer with room is empty before the stream underneath ends. |
| `SsStream.EmptyReadExactlyWhenEmptyFrame` | src/outbound/shadowsocks.rs:403-483 | Over a steady stream, whatever the cuts and buffers, some read into a buffer with room is empty if and only if some frame is. |
| `SsStream.ParseUndoesFrames` | src/outbound/shadowsocks.rs:403-537 | Parsing frames gives back their chunks with nothing left over. |
| `SsStream.ReaderGetsWhatWasWritten` | src/outbound/shadowsocks.rs:488-585 | The reader gets the first payload followed by all data written: no poll fails on its own account, what came out is a prefix, enough polls bring out everything at two nonces a frame, and no read looks like the end before the end. |
| `SsServer.AeadDecryptor.ReadChunk` | src/inbound/shadowsocks_server.rs:286-362 | One chunk with a length in 1..0x3FFF and two nonces, a refusal, or a short stream. |
| `SsServer.ServerUndoesFrames` | src/inbound/shadowsocks_server.rs:286-362 | The server reads frames of such lengths back to their chunks, to the last byte. |
| `SsServer.ServerGetsWhatWasWritten` | src/inbound/shadowsocks_server.rs:286-362 | The server reads the first payload and exactly what was written if that payload has 1..0x3FFF bytes, and nothing otherwise; frames of the writes it always accepts. |
| `GroupCycles.Walk.Visit` | src/config/mod.rs:369-391 | Terminates with everything below the tag finished, or with a cycle at hand. |
| `GroupCycles.ValidateOutboundGroupCycles` | src/config/mod.rs:366-414 | Accepts if and only if there is no closed walk of groups each of which lists the next among its children, of several groups with one tag the last counting; an accepted configuration comes with an order of all its group tags from the bottom up. |
| `GroupCycles.EdgeIsContainment` | src/config/mod.rs:393-406 | The graph has an edge if and only if the last group of the first tag lists the second tag and some group bears it. |
| `GroupCycles.OrderedMeansAcyclic` | src/config/mod.rs:366-414 | A finishing order rules out every cycle. |
| `GroupCycles.EdgeLowersRank` | src/config/mod.rs:366-414 | The rank drops along every edge. |
| `GroupCycles.DelegationIsShort` | src/config/mod.rs:366-414 | In an accepted configuration a chain of groups each containing the next is no longer than there are group tags. |
| `Varint.DecodersAgree` | src/app/sniff.rs:405-445 | The slice, stream and sniffer decoders agree on every byte string, cut off or not. |
| `Varint.DecodeUndoesWrite` | src/outbound/hy2.rs:712-757 | All three invert the writer and consume exactly its bytes, for exactly the values below 2^62. |
| `UdpFragments.SendUdpFragmented` | src/outbound/hy2.rs:1185-1216 | One datagram per piece, each with its number and the count. |
| `UdpFragments.DatagramFits` | src/outbound/hy2.rs:1185-1216 | No datagram exceeds 1100 bytes, and all but the last have exactly as many, when the header is shorter than that; behind a longer one each carries one byte. |
| `UdpFragments.ParseUndoesHeader` | src/outbound/hy2.rs:1271-1290 | Parsing a fragment gives back everything put into its header. |
| `UdpFragments.EveryDatagramCarriesAddress` | src/outbound/hy2.rs:1158-1216 | The address stands behind the fixed part of every datagram of a message. |
| `UdpFragments.RecvUdpReassemble` | src/outbound/hy2.rs:1225-1268 | Reassembly on any datagrams, malformed ones included. |
| `UdpFragments.OutOfBoundsExactlyWhen` | src/outbound/hy2.rs:1230-1239 | The receiver indexes out of bounds if and only if the first datagram is readable, does not stand alone and has a number not below its count. |
| `UdpFragments.OwnDatagramOutOfBoundsExactlyWhen` | src/outbound/hy2.rs:1230-1239 | The sender's datagrams do that if and only if the numbers cut to a byte do: never up to 255 fragments, always with 256. |
| `UdpFragments.ReassembledExactlyWhenComplete` | src/outbound/hy2.rs:1225-1268 | In any order, repeated and mixed with datagrams of other sessions, packets, counts or impossible numbers, exactly the payload if every fragment is there in time, and otherwise nothing. |
| `UdpFragments.NeverWholeBeyond255` | src/outbound/hy2.rs:1185-1216 | With more than 255 fragments no delivery gives the payload back. |
| `Qpack.PutLiteralHeader` | src/outbound/hy2.rs:346-375 | The literal appended, its lengths as prefixed integers. |
| `Qpack.ParseHeadersFromQpack` | src/outbound/hy2.rs:871-974 | The parse on any bytes in 64-bit arithmetic, the panic on a wrapped slice an outcome of its own. |
| `Qpack.InBoundsExactlyWhenLengthsFit` | src/outbound/hy2.rs:908-960 | The parser stays in bounds if and only if every length it reads ends below 2^64. |
| `Qpack.CrashesOnHugeName` | src/outbound/hy2.rs:932-945 | An input: thirteen bytes with a name length of 2^64 - 3. |
| `Qpack.ReadMoreComesRound` | src/outbound/hy2.rs:802-828 | Shift amounts count modulo 64, so a number of very many continuation bytes starts over. |
| `Qpack.ReadsEveryField` | src/outbound/hy2.rs:871-974 | Every field line of sections 4.5.2, 4.5.4 and 4.5.6 of RFC 9204, whatever its flags, Huffman-coded or not, is read as what it says wherever it stands: a table entry, its name with the value, or name and value as spelled. |
| `Qpack.ReadsEveryBlock` | src/outbound/hy2.rs:871-974 | So is every block of such lines. |
| `Qpack.WriterIsStandardExactlyWhen` | src/outbound/hy2.rs:346-375 | The literal the client writes is that of the standard if and only if its value is not 127 bytes long. |
| `Qpack.ReadsLiteral` | src/outbound/hy2.rs:802-828 | A literal whose value is not 127 bytes long is read back whole, wherever it stands. |
| `Qpack.MisreadsLiteral` | src/outbound/hy2.rs:361-373 | A literal with a 127-byte value never is. |
| `Qpack.RecoversUnlessLength127` | src/outbound/hy2.rs:871-974 | The parser recovers the list written if and only if no value is 127 bytes long, for every block that fits a slice. |
| `ClientHello.BuildClientHelloBody` | src/outbound/reality.rs:226-267 | The body of section 4.1.2 of RFC 8446 with the extensions in order. |
| `ClientHello.BuildHelloRecord` | src/outbound/reality.rs:206-224 | The record around the handshake around the body. |
| `ClientHello.HelloIsFramed` | src/outbound/reality.rs:206-240 | Record and handshake length are those of what follows, and random and session id stand where a server takes them from. |
| `ClientHello.SuitesInPlace` | src/outbound/reality.rs:234-246 | The suites offered stand behind the session id and twice their number, in order. |
| `ClientHello.KeyShareHoldsKey` | src/outbound/reality.rs:323-331 | The key share of section 4.2.8 of RFC 8446 holds one x25519 entry with the key. |
| `ClientHello.DefaultsAreHttp` | src/outbound/reality.rs:296-313 | Without configured protocols h2 and http/1.1 are offered. |
| `ClientHello.TryTls` | src/app/sniff.rs:167-262 | The sniffer on any bytes, in bounds and terminating. |
| `ClientHello.BlockOfHello` | src/app/sniff.rs:167-205 | The sniffer finds exactly the extension block of a built record. |
| `ClientHello.ScanUndoesAllExts` | src/app/sniff.rs:206-262 | Scanning encoded extensions is running through the list of them. |
| `ClientHello.SnifferSeesWhatWasBuilt` | src/app/sniff.rs:167-262 | For every random, session id, name, key and protocol list within the length fields: exactly the name, and h2 exactly when the configured list contains it or is empty; nothing without a name. |

## Left out

- Checksum.InternetChecksum: stated up to 65535 bytes, the largest packet the device can deliver; beyond that the 32-bit sum could overflow.
- Packet.HandleTcpV4: the packet loop's own guards (length, version, header length) are preconditions, and ICMP and UDP handling are not part of the model.
- DnsCache.LatestExactlyWhenNotBehind: stated for transports under 65536 bytes, since longer ones can share rows.
- DnsCache.CarriedOverIsServed: stated for a cap of at least one second and lookups not dated before the store; with a cap of zero a reloaded entry is past use at once.
- DnsCache.DnsCache.Get: memory and disk share one whole-second clock although the program uses a monotonic clock for memory.
- DnsCache.DnsCache.InsertMemory: which entry the `lru` crate drops is an arbitrary choice of the environment; the recency order is not part of the model.
- DnsQuery.ExtractQname: the lossy conversion of a label's bytes to text is a parameter.
- FakeIp.AllocateKeepsInv: stated for ranges with at least two host bits, since smaller ones have no address strictly inside; what holds of those is stated in AllocateKeepsMirrored and TinyRangeHasOneAddress.
- FakeIpPersistence.RestoredIsSound: rows are in range and those of one family name distinct domains, as in every table written by one active store; the exact condition is in RestoredIsMirroredExactlyWhen.
- Inflight.EveryRunFinishes: a leader whose task is cancelled between registering and completing is not part of the model, nor are timeouts of the upstream other than as failures.
- Inflight.EveryAnswerIsAccountedFor: the cache lookup is taken to answer with responses for the same key, which it does for transports under 65536 bytes.
- SsWire.BlockedWriteSilencesTheRest: stated for fewer than 2^63 frames, before the 64-bit nonce counter comes round; what a reader makes of a frame cut in the middle depends on the cipher and is not part of the model.
- SsServer.ServerGetsWhatWasWritten: stated for first payloads below 65536 bytes, which fit the length field.
- SsStream.SsXhttpStream.PollWrite: failures of the cipher itself while sealing are not part of the model.
- SsStream.SsXhttpStream.Wrap: the method "none" never reaches this stream; key derivation, salts as random bytes and nonces as byte strings are not part of the model.
- UdpFragments.ReassembledExactlyWhenComplete: no datagram carries other bytes under the session, packet, count and number of one of the fragments.
- Qpack.ParseHeadersFromQpack: 64-bit arithmetic wraps as in the release profile, where a debug build stops at the overflow itself; Huffman coding, the static table and the lossy text conversion are parameters.
- ClientHello.TryTls: UTF-8 validity of the name is a parameter.
- The router, the rule-set compiler and matcher, and the provider manager.
- Sockets, the TUN device, routing commands, the async runtime, the database engine and the TLS and QUIC libraries.
- AES, GCM, SHA, HKDF and BLAKE3, and QUIC Initial decryption in the sniffer.
- UDP and ICMP reply packets, VLESS and SOCKS5 framing and other single-record codecs: easy round trips.
- Latency probing of outbound groups, the Clash API, statistics and configuration structures.
- Parsing of addresses and ranges from text; the CIDR arithmetic starts from numbers.
