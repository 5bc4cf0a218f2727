# rtl8192cu driver logic, modelled and proved in Dafny

This project models the logic of the Realtek rtl8192cu Wi-Fi driver that does not need the hardware, and proves what the
driver relies on. It follows the driver's own division:

- **NAT2.5 bridge table** (`Nat25Model`, `Nat25Keys`, `Nat25Table`, `Nat25Runs`). The chained hash table with `next_hash` and
  `pprev_hash` links, over a memory in which entries are allocated and freed, refines a map from network address to
  client MAC that ages on a wrapping clock; the transmit path's one-entry cache is part of it.
- **PPPoE relay tags and the DHCP checksum patch** (`PppoeTags`, `PppoeRelay`, `DhcpChecksum`): RFC 2516 appendix A, RFC
  1071, RFC 1624 and section 2 of RFC 2131.
- **Scan cache** (`ScanModel`, `ScanCache`, `ScanRuns`). A pool of 128 slots and two queues refine a list of networks,
  which is a bounded map that forgets the network unseen the longest, over runs of survey results, sweeps and clearings.
- **Command thread** (`CmdMachine`, `CmdRuns`, `CmdFates`, `CmdThread`). Filter, insertion and semaphore up of any number of
  enqueuers, stop requests and the consumer are interleaved steps of one machine; the code of the thread is a run of it.
- **Access point** (`ApRules`, `ApRuns`, `ApStations`, `BeaconEdit`, `Bssid`): counters that shadow marks on stations
  and what they come to over whole runs, the operation mode and ERP bits derived from them, and elements spliced into
  the beacon in place.
- **Elements and attributes** (`Tlv`, `ElementSearch`, `ElementParser`, `ElementRemoval`, `P2pAttributes`): the codecs
  of section 8.4.2.1 of IEEE 802.11-2012 and of P2P attributes, up to removing an attribute inside an element inside a
  beacon.
- **Group-owner negotiation** (`ChannelLists`, `GoNegotiation`, `NegoTracker`): section 3.1.4.2 of the Wi-Fi
  Peer-to-Peer Technical Specification.
- **Power sequences** (`PowerSequence`): the table interpreter with its one polling budget.

Code that changes things in place is modelled by classes and loops over arrays, each method proved against a function of
the old state; the laws are lemmas about those functions. Bytes are integers below 256, `unsigned long` and the clock
are 32 bits wide, and bit masks are bit vectors.

Where the code does not do what it is meant to, the code is modelled and the exact condition is proved. Line 110 of
`rtw_br_ext.c` reads a tag length without `ntohs`, so relay tags work on big-endian hosts only. A DHCP checksum survives
the patch only if the flags were zero. A client that takes over an IP address is not learnt while the old entry lives. A
command inserted after the thread's last look is stranded. The Barker bit tells of the last legacy edge. A counter of
stations is right only if every associated station with its mark that authenticated again has joined again or left; one
that times out stays counted for good. A new TIM element falls on a boundary only if the element behind the rates has a
body of one byte. HT marks outlive a repeated join. The comment on `rtw_wdev_nego_info` says 3 for a confirmation where
the code stores 2. The operation mode is maintained only while `ht_option` is not true, although the comment above the
update describes HT networks. Eviction from the scan cache takes the oldest network, fixed or not. A DHCP request
without a checksum gets one that need not be right. Both greatest intents fail in the request but get a role on
confirmation. A response without a WPS element fails, and still leaves the requester agreed.

`dafny verify dfyconfig.toml` checks the whole project.

## Model

| member | source | states |
|---|---|---|
| Nat25Table.Nat25Db.constructor | patches/rtl8192cu/core/rtw_br_ext.c:631-659 | a fresh table: sixteen empty buckets, no entries, an empty transmit cache, hashing with the network hash |
| Nat25Table.Nat25Db.HashLink | patches/rtl8192cu/core/rtw_br_ext.c:392-406 | an entry goes in front of its bucket: the head points at it, it at the old head, and the old head's `pprev_hash` at it |
| Nat25Table.Nat25Db.HashUnlink | patches/rtl8192cu/core/rtw_br_ext.c:409-422 | the one slot that pointed at the entry points at its successor, whose `pprev_hash` follows; nothing else changes |
| Nat25Table.LinkTable | patches/rtl8192cu/core/rtw_br_ext.c:392-406 | linking an unlisted entry keeps the table well-formed: every entry in the bucket of its hash, hooked to exactly one slot, keys unique, all entries reachable |
| Nat25Table.UnlinkTable | patches/rtl8192cu/core/rtw_br_ext.c:409-422 | unlinking any entry of any chain keeps the table well-formed without it |
| Nat25Table.Nat25Db.Find | patches/rtl8192cu/core/rtw_br_ext.c:425-446 | the chain walk finds the one entry of a key, and finds none exactly when the key is absent |
| Nat25Table.Nat25Db.Insert | patches/rtl8192cu/core/rtw_br_ext.c:502-539 | map update: a present key gets the new MAC and clock and keeps its use count, an absent one starts with use count 1, and nothing happens when memory runs out |
| Nat25Table.Nat25Db.LookupAndReplace | patches/rtl8192cu/core/rtw_br_ext.c:425-499 | returns 1 exactly for present keys; the destination is rewritten, and the use count raised, exactly when the entry has not expired |
| Nat25Table.Nat25Db.FreeEntry | patches/rtl8192cu/core/rtw_br_ext.c:662-752 | an entry is unlinked and freed, and the transmit cache is cleared exactly when it pointed there |
| Nat25Table.Nat25Db.Expire | patches/rtl8192cu/core/rtw_br_ext.c:662-752 | one pass over all buckets is one step of the ageing map: fresh entries untouched, expired ones lose a use, and go with the last; no freed entry is touched again |
| Nat25Table.Nat25Db.Cleanup | patches/rtl8192cu/core/rtw_br_ext.c:631-659 | every entry is freed, and the cache cleared if it pointed at one |
| Nat25Table.Nat25Db.ScdbFindEntry | patches/rtl8192cu/core/rtw_br_ext.c:1673-1697 | finds an entry exactly when the IPv4 address is on record, and then that entry |
| Nat25Table.Nat25Db.TxIpv4 | patches/rtl8192cu/core/rtw_xmit.c:3114-3215 | an IPv4 frame on the transmit path does to table and cache what the map with its one-entry cache says, shortcut included |
| Nat25Model.ExpireOneDb | patches/rtl8192cu/core/rtw_br_ext.c:662-752 | visiting one more entry during a pass changes the map at that key only, and clears the cache exactly when its entry goes |
| Nat25Runs.ExpiredByAge | patches/rtl8192cu/core/rtw_br_ext.c:145-162 | the signed comparison on the wrapping clock sees the true age less the ageing time, modulo the clock range |
| Nat25Runs.ExpiryWindow | patches/rtl8192cu/core/rtw_br_ext.c:145-162 | expiry is decided rightly for an age exactly when that age is less than half the clock range past the deadline |
| Nat25Runs.StepKeepsOk | patches/rtl8192cu/core/rtw_br_ext.c:502-534 | after any operation every use count is at least 1 and the cached entry is null or live |
| Nat25Runs.FreshEntryStays | patches/rtl8192cu/core/rtw_br_ext.c:662-752 | over any run within the ageing time, an entry that is not refreshed is never freed, keeps its MAC, and counts its lookups |
| Nat25Runs.DeadEntryDrains | patches/rtl8192cu/core/rtw_br_ext.c:662-752 | over any run past it, an entry is still there exactly when fewer expire passes than its use count have gone by, whatever is looked up between |
| Nat25Runs.InsertStamps | patches/rtl8192cu/core/rtw_br_ext.c:502-539 | an insert leaves the sender, the time, and the uses there were or one, under its key and nowhere else |
| Nat25Runs.EntryLifetime | patches/rtl8192cu/core/rtw_br_ext.c:425-752 | from an insert to the end: the entry belongs to the client inserted, and the passes it outlives are its uses by then plus the lookups made while fresh |
| Nat25Runs.TxStamps | patches/rtl8192cu/core/rtw_xmit.c:3114-3215 | a frame on the transmit path refreshes the cached entry or that of its source, records its sender only outside the shortcut, and changes no other entry |
| Nat25Runs.TxCaches | patches/rtl8192cu/core/rtw_xmit.c:3114-3215 | a sender whose address is on record takes the cache over, the cached sender keeps it, any other empties it |
| Nat25Runs.CacheGoesWithEntry | patches/rtl8192cu/core/rtw_br_ext.c:631-752 | expiry and cleanup clear the cache exactly when its entry goes |
| Nat25Runs.TxLearnsSender | patches/rtl8192cu/core/rtw_xmit.c:3114-3215 | after a frame its source address belongs to its sender exactly when the shortcut was not taken and there was an entry or memory for one, or it belonged to it before |
| Nat25Runs.TakeoverIsNotLearnt | patches/rtl8192cu/core/rtw_xmit.c:3114-3215 | a run in which a client that takes over an IP address is not delivered to, because the cached entry is refreshed for the old owner |
| Nat25Keys.BucketSees | patches/rtl8192cu/core/rtw_br_ext.c:331-389 | changing a byte of a key moves it to another bucket exactly if it is one of the address and its low half changes |
| Nat25Keys.EmptyBucket | patches/rtl8192cu/core/rtw_br_ext.c:331-389 | the bucket of a key without address bytes |
| Nat25Keys.KeysAreDistinct | patches/rtl8192cu/core/rtw_br_ext.c:165-227 | network keys of IPv4, AppleTalk and PPPoE never collide, and equal keys mean equal addresses |
| Nat25Keys.IpxKeysCollide | patches/rtl8192cu/core/rtw_br_ext.c:175-194 | an IPX node key is a socket key exactly when the last four node bytes are zero |
| PppoeRelay.SkBuff.FindTag | patches/rtl8192cu/core/rtw_br_ext.c:87-102 | the first tag of a type in the frame, or none exactly when there is none |
| PppoeRelay.LengthReadSays | patches/rtl8192cu/core/rtw_br_ext.c:105-122 | the length as the host reads it: right on a big-endian host, with its bytes exchanged on a little-endian one |
| PppoeRelay.SkBuff.AddTag | patches/rtl8192cu/core/rtw_br_ext.c:105-122 | with room for the length as the host reads it: that many bytes from the tag on in front of the others, length field and frame length grown by it; else the frame is left alone. Line 110 does not swap the length, so on a little-endian host the bytes run past the tag |
| PppoeRelay.SkBuff.PullAndMerge | patches/rtl8192cu/core/rtw_br_ext.c:124-143 | cuts a byte range out of the frame and closes the gap, or leaves the frame alone and fails |
| PppoeRelay.SkBuff.TakeOldRelay | patches/rtl8192cu/core/rtw_br_ext.c:1212-1236 | the old relay tag is taken out with its data kept, unless it is too long for the buffer |
| PppoeRelay.SkBuff.InsertDiscovery | patches/rtl8192cu/core/rtw_br_ext.c:1212-1255 | succeeds exactly when there is room for the length as the host reads it, and a PADI or PADR then leaves with the bridge's relay tag first and the old one taken up into it exactly on a big-endian host; on either host the tag area is the bytes read of the new tag in front of the other tags; everything in front of the length is unchanged |
| PppoeRelay.SkBuff.LookupDiscovery | patches/rtl8192cu/core/rtw_br_ext.c:1289-1334 | a PADO or PADS whose first relay tag is the bridge's goes to the client named there, with the old relay data restored or the tag removed; any other is refused untouched |
| PppoeRelay.SkBuff.StripFound | patches/rtl8192cu/core/rtw_br_ext.c:1319-1330 | the destination is the client's address and the tag list is the stripped one, length field included |
| PppoeRelay.RelayAndBack | patches/rtl8192cu/core/rtw_br_ext.c:1212-1334 | the two routines in a row on the bytes: a query relayed by a big-endian host and answered under any header comes back addressed to its sender, with its tags, the relay tag in front |
| PppoeTags.RefusedIff | patches/rtl8192cu/core/rtw_br_ext.c:1297-1317 | a reply is refused exactly when it has no relay tag, or its first one has fewer than eight bytes or another magic than 81 86 |
| PppoeTags.StripsOwnPart | patches/rtl8192cu/core/rtw_br_ext.c:1297-1334 | what is accepted is what the bridge could have sent, and exactly the bridge's part is taken out of it |
| PppoeTags.FitsIff | patches/rtl8192cu/core/rtw_br_ext.c:1222-1230 | an earlier relay's data is taken up as long as it has at most 28 bytes |
| PppoeTags.RelayRoundTrip | patches/rtl8192cu/core/rtw_br_ext.c:1212-1334 | whatever the concentrator does to the other tags, the reply comes back to the client that asked with the old relay data in place |
| PppoeTags.EchoRoundTrip | patches/rtl8192cu/core/rtw_br_ext.c:1212-1334 | an unchanged echo comes back as the tags that were sent, with the relay tag moved to the front |
| PppoeTags.EncodeShorter | patches/rtl8192cu/core/rtw_br_ext.c:1321-1330 | shortening a tag from the front and correcting its length is exact on the encoded list |
| DhcpChecksum.DhcpFlagBcast | patches/rtl8192cu/core/rtw_br_ext.c:1626-1670 | the frame is edited exactly when it is an IPv4 UDP DHCP request without the broadcast flag, and then only in its flags and checksum words |
| DhcpChecksum.AppliesIff | patches/rtl8192cu/core/rtw_br_ext.c:1631-1648 | which frames are edited, byte by byte |
| DhcpChecksum.FoldCarries | patches/rtl8192cu/core/rtw_br_ext.c:1659-1663 | the fold loop ends below 65536 with the same residue modulo 65535, and is zero only for zero |
| DhcpChecksum.PatchMovesSum | patches/rtl8192cu/core/rtw_br_ext.c:1651-1663 | the patch moves the datagram's sum by exactly the old flags word, on either byte order and for every length |
| DhcpChecksum.PatchKeepsChecksum | patches/rtl8192cu/core/rtw_br_ext.c:1651-1663 | a checksum in order stays in order exactly when the old flags word was zero |
| DhcpChecksum.PatchDropsChecksum | patches/rtl8192cu/core/rtw_br_ext.c:1651-1663 | the patched checksum comes out as zero, which means none, exactly when the old one equals the new flags word |
| DhcpChecksum.PatchInventsChecksum | patches/rtl8192cu/core/rtw_br_ext.c:1651-1663 | a request without a checksum gets one, and it is right exactly when the sum of the datagram was its flags word |
| DhcpChecksum.WordSumPatch | patches/rtl8192cu/core/rtw_br_ext.c:1651-1663 | replacing one aligned word moves the sum of the datagram by the difference of the words |
| ScanModel.SameNetworkIsIdentity | patches/rtl8192cu/core/rtw_mlme.c:627-666 | `is_same_network` compares exactly address, SSID and the two capability bits |
| ScanModel.CapabilityBits | patches/rtl8192cu/core/rtw_mlme.c:627-666 | the two bits are the lowest of the capabilities |
| ScanModel.LaterIsYounger | patches/rtl8192cu/core/rtw_mlme.c:701-763 | for times less than half the clock range old, `time_after` is being younger |
| ScanModel.SmoothStalls | patches/rtl8192cu/core/rtw_mlme.c:745-748 | the smoothed signal stops moving exactly when the sample lies at most four above it |
| ScanModel.SignalsStayBetween | patches/rtl8192cu/core/rtw_mlme.c:701-763 | an update leaves signals between the old value and the sample, and untouched by a frame from a neighbouring channel; only a connected network takes strength and quality from the link |
| ScanModel.SignalsAfterUpdate | patches/rtl8192cu/core/rtw_mlme.c:701-763 | strength and quality are the link's for the connected network, else one part sample and four parts history, rounded down; a frame of a neighbouring channel does not count |
| ScanModel.RefreshedContents | patches/rtl8192cu/core/rtw_mlme.c:944-961 | a known network takes over the new frame, unless that is a beacon with fewer bytes of elements; its bookkeeping stays |
| ScanModel.FreshContents | patches/rtl8192cu/core/rtw_mlme.c:891-942 | a new network comes in as received, with quality zero for a wrong channel |
| ScanModel.SurveyInPlace | patches/rtl8192cu/core/rtw_mlme.c:847-964 | which entry a survey result changes, to what contents, and that no other entry moves or changes |
| ScanModel.SurveyKeepsUnique | patches/rtl8192cu/core/rtw_mlme.c:847-964 | there is at most one entry for each network |
| ScanModel.OneIsAfter | patches/rtl8192cu/core/rtw_mlme.c:869-891 | of two times exactly one is after the other, unless they are equal, or half the clock range apart and each after the other |
| ScanModel.OldestIsOldest | patches/rtl8192cu/core/rtw_mlme.c:869-891 | the entry the loop ends up with has the greatest age, as long as all are less than half the clock range old |
| ScanModel.SurveyIsMapUpdate | patches/rtl8192cu/core/rtw_mlme.c:847-964 | a survey result updates the map of networks at its own network with the newest time; another goes only when all 128 slots are in use, and it is one of greatest age |
| ScanModel.OldestIs | patches/rtl8192cu/core/rtw_mlme.c:869-891 | under the same assumption, exactly: what stands before the choice is younger, what stands behind it is not older |
| ScanModel.EvictedIff | patches/rtl8192cu/core/rtw_mlme.c:847-942 | a network loses its entry exactly when all slots are in use, the survey result is of a network without one, and the loop chose it; being fixed is no part of that |
| ScanModel.FixedIsEvicted | patches/rtl8192cu/core/rtw_mlme.c:891-926 | a full cache whose oldest network is fixed, and loses its entry to the next new network |
| ScanCache.ScanCache.constructor | patches/rtl8192cu/core/rtw_mlme.c:68-91 | all slots are free, in order |
| ScanCache.ScanCache.Alloc | patches/rtl8192cu/core/rtw_mlme.c:217-253 | the first free slot with its bookkeeping cleared, held by nobody else, or none exactly when the pool is empty |
| ScanCache.ScanCache.FreeNetwork | patches/rtl8192cu/core/rtw_mlme.c:255-358 | a network stays if it is fixed or too young, else its slot moves to the end of the free pool |
| ScanCache.ScanCache.FreeNetworkQueue | patches/rtl8192cu/core/rtw_mlme.c:410-441 | the sweep keeps exactly the networks that stay, in order and unchanged |
| ScanCache.SweepIsRestriction | patches/rtl8192cu/core/rtw_mlme.c:410-441 | as a map, the sweep is a restriction |
| ScanCache.ScanCache.FreeScanQueue | patches/rtl8192cu/core/rtw_mlme.c:1338-1367 | every slot goes to the free pool, fixed ones too |
| ScanCache.PartitionCounts | patches/rtl8192cu/core/rtw_mlme.c:84-91 | free pool, scanned queue and slots held account for all 128 slots |
| ScanCache.ScanCache.SetFixed | patches/rtl8192cu/core/rtw_mlme.c:366-407 | the first network of an address, none for the zero address, is marked fixed or no longer; nothing else changes |
| ScanCache.ScanCache.Search | patches/rtl8192cu/core/rtw_mlme.c:862-887 | the first entry of the same network, with the oldest of those passed |
| ScanCache.ScanCache.UpdateScannedNetwork | patches/rtl8192cu/core/rtw_mlme.c:847-964 | the slots, queues and counter do what the list of networks says; each slot stays in exactly one queue; the entry to evict is there when the pool is empty |
| ScanRuns.AfterIsBounded | patches/rtl8192cu/core/rtw_mlme.c:847-964 | after any run of survey results, sweeps, clearings and marks, whatever the clock does, one entry for each network and at most 128 |
| ScanRuns.EntriesAreStamped | patches/rtl8192cu/core/rtw_mlme.c:847-964 | over any run every entry carries the time its network was last seen |
| ScanRuns.RecentlySeenIsKept | patches/rtl8192cu/core/rtw_mlme.c:255-964 | over any run, of a network since whose last sighting fewer than 128 others were seen there is an entry, stamped with it, exactly when no sweep since found it neither fixed nor young and the queue was not cleared |
| ScanRuns.MarkIsNeverStored | patches/rtl8192cu/core/rtw_mlme.c:732-763 | over any run with samples of at most 101 and a link quality of at most 100, the wrong-channel quality 101 is never stored |
| ScanRuns.SurveyUnmarkedIff | patches/rtl8192cu/core/rtw_mlme.c:847-964 | with samples of at most 101, one survey result keeps every quality at most 100 exactly unless it refreshes the connected network with a link quality above 100 |
| ScanRuns.MarkIsStored | patches/rtl8192cu/core/rtw_mlme.c:734-743 | a connected network seen twice with link quality 101 gets the mark stored, so the bound is needed |
| CmdMachine.StepKeepsConserved | patches/rtl8192cu/core/rtw_cmd.c:218-265 | every step keeps each command in exactly one place: on its way in, queued, in hand, freed, handed over, or leaked |
| CmdMachine.StepKeepsCovered | patches/rtl8192cu/core/rtw_cmd.c:344-378 | every step keeps at most as many commands queued as wake-ups on their way |
| CmdMachine.InvHolds | patches/rtl8192cu/core/rtw_cmd.c:436-572 | the invariant holds after every schedule of enqueuers, stop requests, flag changes, signals and thread steps |
| CmdRuns.NoLostWakeup | patches/rtl8192cu/core/rtw_cmd.c:344-378 | when the thread would sleep with the semaphore at zero and no enqueuer between insertion and up, the queue is empty |
| CmdRuns.LeavesIff | patches/rtl8192cu/core/rtw_cmd.c:458-482 | the thread leaves on a signal, on a stop request when woken, or when stopped or removed, and for no other reason |
| CmdRuns.ThreadRests | patches/rtl8192cu/core/rtw_cmd.c:456-566 | left alone the thread comes to sleep or to its end within as many steps, wherever it is |
| CmdRuns.WakeupsAreCounted | patches/rtl8192cu/core/rtw_cmd.c:344-378 | over any schedule each wake-up was paid for by one up, and the flags are those set last |
| CmdRuns.StopIsNotLost | patches/rtl8192cu/core/rtw_cmd.c:425-434 | a stop request whose up is done finds the semaphore raised, and the sleeping thread leaves after two steps |
| CmdRuns.TakenInOrder | patches/rtl8192cu/core/rtw_cmd.c:218-265 | commands are taken in the order in which they were inserted |
| CmdRuns.DisposedExactlyOnce | patches/rtl8192cu/core/rtw_cmd.c:436-572 | a command no longer on its way has been freed, handed to its callback or leaked, exactly one of them and once; leaked only beyond the tables |
| CmdRuns.LateIsStranded | patches/rtl8192cu/core/rtw_cmd.c:552-564 | once the thread is done the queue holds exactly what was inserted after its last look |
| CmdRuns.LateArrivals | patches/rtl8192cu/core/rtw_cmd.c:552-566 | after the thread has found its queue empty for the last time, those that stood between filter and insertion are the ones that still do or have inserted since |
| CmdRuns.AllAccountedIffNoneLate | patches/rtl8192cu/core/rtw_cmd.c:344-378 | once all enqueuers are through, every known command was freed or handed over exactly when none stood between filter and insertion at the thread's last look |
| CmdRuns.StrandedCommand | patches/rtl8192cu/core/rtw_cmd.c:344-378 | for any command there is a schedule that strands it: it passed the filter before the thread stopped and is inserted after |
| CmdFates.StepBooks | patches/rtl8192cu/core/rtw_cmd.c:436-572 | each step refuses, rejects, issues, drains, releases, hands over or leaks exactly the command it should |
| CmdFates.LedgerTells | patches/rtl8192cu/core/rtw_cmd.c:344-572 | over any schedule a command was freed, issued, handed over or leaked exactly if a step of it did that |
| CmdFates.CallbackGetsIt | patches/rtl8192cu/core/rtw_cmd.c:527-546 | a command with a callback that is through was handed over unless it was refused, rejected by the second filter, or drained |
| CmdFates.DecidedOnce | patches/rtl8192cu/core/rtw_cmd.c:344-572 | about each command exactly one thing is decided: refused, drained, dropped by the first filter, rejected by the second, or issued |
| CmdFates.IssuedOnce | patches/rtl8192cu/core/rtw_cmd.c:499-527 | a command goes to its handler at most once, and from there to its disposal |
| CmdThread.CmdPriv.EnqueueCmd | patches/rtl8192cu/core/rtw_cmd.c:344-378 | uninterrupted: refused and freed, or queued at the end with one more wake-up |
| CmdThread.EnqueuedIsThreeSteps | patches/rtl8192cu/core/rtw_cmd.c:344-378 | an uninterrupted enqueue is the machine's submit, insert and up in a row |
| CmdThread.CmdPriv.DequeueCmd | patches/rtl8192cu/core/rtw_cmd.c:242-265 | the first command, or none exactly when the queue is empty |
| CmdThread.CmdPriv.PostProcess | patches/rtl8192cu/core/rtw_cmd.c:530-546 | a command with a callback is handed to it, one without is freed, one beyond the tables is neither |
| CmdThread.CmdPriv.HandleCmd | patches/rtl8192cu/core/rtw_cmd.c:493-549 | one command through both filters to its disposal is a run of the machine, whatever the flags do between |
| CmdThread.CmdPriv.HandleQueue | patches/rtl8192cu/core/rtw_cmd.c:478-549 | the inner loop is a run of the machine that ends asleep or leaving |
| CmdThread.CmdPriv.CmdThread | patches/rtl8192cu/core/rtw_cmd.c:436-572 | left alone the thread comes to an end or to sleep with an empty queue, each of its steps one the machine can take, and it ends if a stop was asked for |
| ApStations.Ap.constructor | patches/rtl8192cu/core/rtw_ap.c:2823-2860 | at the start no station is known, all counters are zero, and the mode is the one for them |
| ApStations.Ap.SetMark | patches/rtl8192cu/core/rtw_ap.c:2281-2315 | a mark is set and counted unless it was set |
| ApStations.Ap.ClearMark | patches/rtl8192cu/core/rtw_ap.c:2481-2489 | a mark is taken away and uncounted if it was set, and the counter was positive then |
| ApStations.Ap.UpdateBeaconErp | patches/rtl8192cu/core/rtw_ap.c:1901-1934 | the ERP byte gets both protection bits exactly when the counter is one, and the Barker bit exactly when its counter is positive; other bits stay |
| ApRules.UpdateMode | patches/rtl8192cu/core/rtw_ap.c:2158-2227 | unmanaged bits survive, the rest follows from the conditions; the number of changes is zero exactly when the mode stays as it was |
| ApRules.ModeSays | patches/rtl8192cu/core/rtw_ap.c:2172-2220 | mixed while stations without HT or greenfield are counted, else 20 MHz stations on a wide channel, else overlapping legacy stations, else pure; a bit for each of the first two, and nothing else |
| ApRules.ManagedBits | patches/rtl8192cu/core/rtw_ap.c:2172-2220 | an update replaces bits 0, 1, 2 and 4 and leaves the others |
| ApRules.JoinMarksSay | patches/rtl8192cu/core/rtw_ap.c:2281-2447 | each mark of a station that joins, by what it says of itself and what it had |
| ApRules.ReportedIff | patches/rtl8192cu/core/rtw_ap.c:2291-2394 | a join or leave reports an update exactly when a count that matters reached or left zero |
| ApStations.Ap.HtOperationUpdate | patches/rtl8192cu/core/rtw_ap.c:2158-2227 | the same from the counters; nothing while `ht_option` is true |
| ApStations.Ap.Join | patches/rtl8192cu/core/rtw_ap.c:2263-2468 | after a first or repeated join the counters still count the marks, the mode is the one for the counts whatever came before, the ERP byte took the edge if there was one and keeps tracking, and the report says so |
| ApStations.Ap.Leave | patches/rtl8192cu/core/rtw_ap.c:2471-2544 | the same for a leave, after which the station has no mark |
| ApStations.Ap.Reauthenticate | patches/rtl8192cu/core/rtw_mlme_ext.c:1430-1443 | a station that authenticates again leaves the association list with its marks still counted |
| ApStations.Ap.FreeUnannounced | patches/rtl8192cu/core/rtw_ap.c:383-402 | a structure freed on an authentication timeout takes its marks along uncounted |
| ApStations.Ap.Alloc | patches/rtl8192cu/core/rtw_mlme_ext.c:1413-1429 | a station that authenticates for the first time gets a structure without marks |
| ApStations.Ap.CountersAre | patches/rtl8192cu/core/rtw_ap.c:2263-2544 | each counter is what the run of authentications, joins, leaves and timeouts says |
| ApRuns.AssociatedAfter | patches/rtl8192cu/core/rtw_ap.c:2263-2544 | who has a structure and who is on the association list after each event |
| ApRuns.CounterIs | patches/rtl8192cu/core/rtw_ap.c:2263-2544 | a counter exceeds the number of associated stations with its mark by those off the list that still carry it and the marks lost |
| ApRuns.StepOnStrays | patches/rtl8192cu/core/rtw_ap.c:383-402 | what each event does to those two: authenticating again strands a marked station, a timeout loses its marks |
| ApRuns.StaysRightIff | patches/rtl8192cu/core/rtw_mlme_ext.c:1430-1443 | a right counter becomes wrong by one event alone: an associated station with the mark authenticates again |
| ApRuns.LostIsForGood | patches/rtl8192cu/core/rtw_ap.c:383-402 | over every continuation of a run marks lost never become fewer, and with one the counter stays above the number of associated stations |
| ApRuns.StrayIff | patches/rtl8192cu/core/rtw_mlme_ext.c:1430-1443 | the stranded stations are those that authenticated again while associated and have neither joined, left nor timed out since |
| ApRuns.LostIff | patches/rtl8192cu/core/rtw_ap.c:383-402 | a mark was lost exactly when such a station timed out first |
| ApRuns.RightIffAllSettled | patches/rtl8192cu/core/rtw_ap.c:2263-2544 | over any run a counter is the number of associated stations with its mark exactly when every one that authenticated again has then joined again or left before timing out |
| ApRuns.NoRepeatsCountRight | patches/rtl8192cu/core/rtw_ap.c:2263-2544 | while nobody authenticates twice all counters are right |
| ApStations.MarkIsLost | patches/rtl8192cu/core/rtw_ap.c:383-402 | a legacy station that associates, authenticates again and times out leaves the counter at one with no station left |
| ApRules.RejoinForgetsIff | patches/rtl8192cu/core/rtw_ap.c:2407-2447 | a repeated join is like a first one exactly when no mark about an HT feature is left over: those two are never taken away |
| ApRules.StepsAreIndependent | patches/rtl8192cu/core/rtw_ap.c:2172-2220 | no step of the mode update undoes another |
| ApRules.OnlyTheLastCounts | patches/rtl8192cu/core/rtw_ap.c:2158-2227 | from mode zero, after any run of counts and overlap flags the mode is the one for the last of them |
| ApRules.EdgesSuffice | patches/rtl8192cu/core/rtw_ap.c:2326-2357 | writing the ERP byte on the edges only keeps the bits set exactly while there is a legacy station |
| ApRules.EdgesSufficeThroughout | patches/rtl8192cu/core/rtw_ap.c:2491-2499 | and so over every run of counts |
| ApRules.BarkerStaysRightIff | patches/rtl8192cu/core/rtw_ap.c:1926-1929 | from a right Barker bit a step leaves it right exactly if the legacy count has an edge or the short preamble count has none |
| ApRules.BarkerTellsLastEdge | patches/rtl8192cu/core/rtw_ap.c:1926-1929 | over any run the bit tells whether short preambles were missing at the last legacy edge, so it is right exactly when they are missing now just as then |
| ApStations.BarkerGoesStale | patches/rtl8192cu/core/rtw_ap.c:2281-2298 | the join of a first station without short preamble that is no legacy station leaves the bit wrong |
| BeaconEdit.Splice | patches/rtl8192cu/core/rtw_ap.c:253-275 | backing up the remainder, storing and putting it back replaces a byte range and writes nothing else |
| BeaconEdit.SplicedElements | patches/rtl8192cu/core/rtw_ap.c:208-318 | replacing the bytes of some elements by others is replacing those elements in the list |
| BeaconEdit.FindAnchor | patches/rtl8192cu/core/rtw_ap.c:216-235 | the loop finds the element of the id, or the last one before its place |
| BeaconEdit.AddBcnIe | patches/rtl8192cu/core/rtw_ap.c:208-276 | the element list with that id set; fixed fields and everything behind the new end untouched |
| BeaconEdit.RemoveBcnIe | patches/rtl8192cu/core/rtw_ap.c:278-318 | the element list without the first element of that id, if it has a body |
| BeaconEdit.SplicedTim | patches/rtl8192cu/core/rtw_ap.c:86-206 | where the region the code takes starts at a boundary, the splice there is replacing or inserting the TIM element |
| BeaconEdit.UpdateBcnTim | patches/rtl8192cu/core/rtw_ap.c:86-206 | one splice at the old TIM element or the computed offset, nothing else written; where that offset is a boundary, the TIM element is replaced or inserted and every other element stays |
| BeaconEdit.AddedOnAscending | patches/rtl8192cu/core/rtw_ap.c:208-276 | on an ascending list the result is ascending, has the element, and is otherwise the same list |
| BeaconEdit.RemoveUndoesAdd | patches/rtl8192cu/core/rtw_ap.c:278-318 | removing restores the list an absent id was added to exactly when the data is not empty |
| BeaconEdit.AddIsIdempotent | patches/rtl8192cu/core/rtw_ap.c:208-276 | adding the same element twice is adding it once |
| BeaconEdit.TimGoesBehindDs | patches/rtl8192cu/core/rtw_ap.c:124-147 | behind SSID, rates and a DS element the new TIM element falls on a boundary, right after the DS element |
| BeaconEdit.TimBoundaryIff | patches/rtl8192cu/core/rtw_ap.c:124-147 | with SSID and rates in front and no TIM element, the computed offset is a boundary exactly when the next element has a body of one byte |
| BeaconEdit.TimLandsInside | patches/rtl8192cu/core/rtw_ap.c:124-147 | an ascending list without a DS element in which the new TIM element lands inside another |
| BeaconEdit.TimUpdateIsIdempotent | patches/rtl8192cu/core/rtw_ap.c:86-206 | updating twice is updating once exactly when no empty TIM element stands in front |
| BeaconEdit.TimBodySays | patches/rtl8192cu/core/rtw_ap.c:104-181 | the body of the TIM element station by station: DTIM count 0 and period 1, the group bit, and a bit for each station |
| BeaconEdit.TimShowsHighStations | patches/rtl8192cu/core/rtw_ap.c:159-166 | stations 8 to 15 are announced exactly while one of 2 to 7 is waiting too |
| ElementSearch.GetIe | patches/rtl8192cu/core/rtw_ieee80211.c:226-257 | the first element of an id and the length of its body, or none |
| ElementSearch.P2pIff | patches/rtl8192cu/core/rtw_ieee80211.c:1402-1447 | a P2P element is a vendor element that starts with 50 6F 9A 09 |
| ElementSearch.GetP2pIe | patches/rtl8192cu/core/rtw_ieee80211.c:1402-1447 | the first P2P element, or none |
| ElementRemoval.GetIeEx | patches/rtl8192cu/core/rtw_ieee80211.c:271-308 | the first element of an id whose body starts with the given bytes, or none |
| ElementRemoval.IesRemoveIe | patches/rtl8192cu/core/rtw_ieee80211.c:321-355 | exactly the matching elements behind the offset go, the others stay in order and byte for byte; success exactly when one matched |
| ElementRemoval.HitIff | patches/rtl8192cu/core/rtw_ieee80211.c:271-308 | what a pattern matches: its id, and any body that goes on from its leading bytes |
| ElementRemoval.KeptOneByOne | patches/rtl8192cu/core/rtw_ieee80211.c:321-355 | each element is kept or not by itself, in order |
| ElementRemoval.KeptHasNoHit | patches/rtl8192cu/core/rtw_ieee80211.c:321-355 | what stays is exactly what does not match |
| ElementParser.ParseElems | patches/rtl8192cu/core/rtw_ieee80211.c:1060-1185 | fails, or fills the slots of the decoded list, with unknown elements reported |
| ElementParser.ParsesExactlyCompleteLists | patches/rtl8192cu/core/rtw_ieee80211.c:1060-1185 | parsing succeeds exactly on concatenations of complete elements |
| Tlv.HeaderSays | patches/rtl8192cu/core/rtw_ieee80211.c:1060-1598 | the headers of elements, P2P attributes and PPPoE tags, each length in its byte order |
| ElementParser.DecodeEncode | patches/rtl8192cu/core/rtw_ieee80211.c:1060-1185 | decoding an encoded list gives the list back |
| ElementParser.EncodeDecode | patches/rtl8192cu/core/rtw_ieee80211.c:1060-1185 | encoding a decoded list gives the bytes back |
| ElementParser.SlotIsLast | patches/rtl8192cu/core/rtw_ieee80211.c:1060-1185 | each slot is inside the buffer and describes the body of the last element that goes to it |
| ElementParser.SlotSays | patches/rtl8192cu/core/rtw_ieee80211.c:930-1185 | which element goes to which slot: by id, or by the first bytes of a vendor element |
| ElementParser.ParsersAgree | patches/rtl8192cu/core/rtw_ieee80211.c:226-257 | the parser and `rtw_get_ie` agree on an id exactly when it does not occur again |
| P2pAttributes.GetP2pAttr | patches/rtl8192cu/core/rtw_ieee80211.c:1459-1505 | the first attribute of an id in a P2P element, or none |
| P2pAttributes.AttrRemove | patches/rtl8192cu/core/rtw_ieee80211.c:1558-1598 | all attributes of the id go, the others move up in order, the length byte follows, the vacated bytes are zero |
| P2pAttributes.RemoveFirst | patches/rtl8192cu/core/rtw_ieee80211.c:1558-1598 | removing the first of a kind while there is one is filtering |
| P2pAttributes.RemoveP2pAttr | patches/rtl8192cu/core/rtw_ieee80211.c:1600-1632 | the beacon with those attributes filtered out of its first P2P element, every other element byte-identical in order, `IELength` reduced, the vacated tail zero |
| P2pAttributes.ExcisedIsWithout | patches/rtl8192cu/core/rtw_ieee80211.c:1583-1587 | one round of stores takes out exactly one attribute |
| ChannelLists.GetPeerChList | patches/rtl8192cu/core/rtw_p2p.c:2647-2670 | the channels of all entries, one behind the other |
| ChannelLists.ChannelsOneByOne | patches/rtl8192cu/core/rtw_p2p.c:2647-2670 | the channels of a list are those of its entries, one behind the other |
| ChannelLists.ChInclusion | patches/rtl8192cu/core/rtw_p2p.c:2687-2706 | the resumed scan of the two lists |
| ChannelLists.IsChannelListOk | patches/rtl8192cu/core/rtw_p2p.c:28-41 | membership |
| ChannelLists.ResumedIsPartOfBoth | patches/rtl8192cu/core/rtw_p2p.c:2687-2706 | for any lists the result is a subsequence of the peer's list drawn from ours |
| ChannelLists.ResumedIsIntersection | patches/rtl8192cu/core/rtw_p2p.c:2687-2706 | when both lists ascend the result is the plain intersection, in order and with repeats |
| ChannelLists.ResumedFindsAllIff | patches/rtl8192cu/core/rtw_p2p.c:2687-2706 | with ours ascending it finds all the common channels exactly when the peer lists those in ascending order |
| ChannelLists.ResumedMissesOne | patches/rtl8192cu/core/rtw_p2p.c:2687-2706 | a peer that lists channel 6 before channel 1 loses channel 1 |
| GoNegotiation.WifiDirect.HandleChannels | patches/rtl8192cu/core/rtw_p2p.c:2862-2916 | failure without a common channel; a group owner keeps its channel if common, else takes the peer's, else the first common one |
| GoNegotiation.WifiDirect.ProcessReq | patches/rtl8192cu/core/rtw_p2p.c:2708-2942 | role, phase, channel and result after the P2P elements of a request, error cases included |
| GoNegotiation.WifiDirect.ProcessResp | patches/rtl8192cu/core/rtw_p2p.c:2944-3205 | the same for a response |
| GoNegotiation.WifiDirect.ProcessConfirm | patches/rtl8192cu/core/rtw_p2p.c:3207-3301 | role, phase, channels and result after the P2P elements of a confirmation |
| GoNegotiation.ConfirmationDecides | patches/rtl8192cu/core/rtw_p2p.c:3207-3301 | a confirmation is refused by the first element that says so, else agreed in the role derived once more if an element has a status, else changes nothing; the channel stays |
| GoNegotiation.RolesAgree | patches/rtl8192cu/core/rtw_mlme_ext.c:3526-3537 | with the response's tie breaker complementing the request's, one side is owner and the other client exactly when not both intents are 15; the comparison names the owner; the confirmation confirms |
| GoNegotiation.NegotiationAgrees | patches/rtl8192cu/core/rtw_p2p.c:2809-3260 | request and response end in agreement, and the owner's channel is one of its own and on the other's list; a successful confirmation keeps role and channel, any other ends in failure without a role |
| GoNegotiation.RequestSucceedsIff | patches/rtl8192cu/core/rtw_p2p.c:2809-2916 | a complete request succeeds exactly when not both intents are 15 and a common channel is found |
| GoNegotiation.ResponseSucceedsIff | patches/rtl8192cu/core/rtw_p2p.c:3016-3162 | a complete response succeeds exactly when it also has a WPS element and does not refuse; a refusal is passed on and leaves no role |
| GoNegotiation.RequestElementSays | patches/rtl8192cu/core/rtw_p2p.c:2809-2916 | role, phase, result, intents and channel after one P2P element of a request |
| GoNegotiation.RequestSays | patches/rtl8192cu/core/rtw_p2p.c:2796-2931 | with any number of elements the first without a common channel ends it; role and intent are those of the last intent looked at; failure exactly if one clashed |
| GoNegotiation.EarlyAnswers | patches/rtl8192cu/core/rtw_p2p.c:2738-2800 | what a request without WPS data or P2P elements is answered with |
| GoNegotiation.ResponseElementSays | patches/rtl8192cu/core/rtw_p2p.c:3016-3162 | the same for one element of a response, with the peer's channel |
| GoNegotiation.ResponseSays | patches/rtl8192cu/core/rtw_p2p.c:3000-3176 | the first refusal or dead end decides; else the requester is agreed or failed by the last intent |
| GoNegotiation.AgreedWithoutWps | patches/rtl8192cu/core/rtw_p2p.c:2972-3060 | a response without a WPS element fails, and its intent still makes the requester agreed |
| GoNegotiation.BothGreatestFails | patches/rtl8192cu/core/rtw_p2p.c:3238-3260 | with both intents 15 the request fails without a role, yet a confirmation would give one |
| NegoTracker.Tracker.CheckFrame | patches/rtl8192cu/core/rtw_p2p.c:4047-4178 | a request starts over on a new token and takes state 0; a response or confirmation is recorded only if token, state and peer match; a refusal and a confirmation clear the token |
| NegoTracker.ConfirmTakenIff | patches/rtl8192cu/core/rtw_p2p.c:4047-4178 | over all sequences of frames a confirmation is taken exactly when it is meant for the last request, accepted by the first response of its dialogue and not confirmed yet; or has token zero and comes from the peer of a refused request; the intents compared are theirs |
| NegoTracker.RecordAfter | patches/rtl8192cu/core/rtw_p2p.c:4047-4178 | what a request and a confirmation leave on record, and that a frame that does not match leaves nothing |
| NegoTracker.NothingOnRecord | patches/rtl8192cu/core/rtw_p2p.c:4047-4178 | before the first request nothing is on record and nothing is taken |
| NegoTracker.TokensAreSound | patches/rtl8192cu/core/rtw_p2p.c:4047-4178 | a confirmation with a token is taken only where a success awaits it |
| NegoTracker.MisledIff | patches/rtl8192cu/core/rtw_p2p.c:4123-4178 | one that no success awaits is taken exactly when it has token zero and the request of its peer was refused |
| NegoTracker.ZeroTokenConfirmsRefusal | patches/rtl8192cu/core/rtw_p2p.c:4123-4178 | a request with token zero, refused, and confirmed all the same |
| PowerSequence.Adapter.HalPwrSeqCmdParsing | patches/rtl8192cu/hal/HalPwrSeqCmd.c:60-172 | stops on every table with a matching end and does what the table means |
| PowerSequence.Adapter.PollBit | patches/rtl8192cu/hal/HalPwrSeqCmd.c:123-149 | the polling loop, with its count going on from before |
| PowerSequence.OnlyMatchingCount | patches/rtl8192cu/hal/HalPwrSeqCmd.c:80-83 | a table does what its matching commands do |
| PowerSequence.MatchesIff | patches/rtl8192cu/hal/HalPwrSeqCmd.c:80-83 | a command is for a chip if each of its three masks has a bit of what the chip is |
| PowerSequence.PollingIsBounded | patches/rtl8192cu/hal/HalPwrSeqCmd.c:129-147 | at most 5002 polling reads in all, and the run fails exactly when it makes all of them |
| PowerSequence.EndCutsOff | patches/rtl8192cu/hal/HalPwrSeqCmd.c:159-163 | a matching end command ends a table, whatever comes behind it |
| PowerSequence.NothingElseEnds | patches/rtl8192cu/hal/HalPwrSeqCmd.c:76-172 | without one every matching command is executed |
| PowerSequence.PollWaits | patches/rtl8192cu/hal/HalPwrSeqCmd.c:123-149 | ten microseconds for each read that does not show the value |
| PowerSequence.LastWriteWins | patches/rtl8192cu/hal/HalPwrSeqCmd.c:89-121 | on plain memory a successful run leaves each bit as the last executed write covering it, or as it was |
| PowerSequence.SucceedsIff | patches/rtl8192cu/hal/HalPwrSeqCmd.c:60-172 | on plain memory a run succeeds exactly when each poll finds its value at once and there are at most 5001 |
| PowerSequence.RunCosts | patches/rtl8192cu/hal/HalPwrSeqCmd.c:60-172 | a successful run on plain memory waits for its delays only and reads once for each write and poll |

## Left out

- Hardware and firmware access, locks, timers and threads as operating-system objects, and tracing: critical sections are atomic steps and time is a counter.
- Concurrent mode, TDLS, WiDi, antenna diversity (it overwrites one signal field of a survey result), SDIO addressing, `CONFIG_LPS_LCLK`, FreeBSD and Windows branches.
- The IPv6, ARP, IPX, AppleTalk and PPPoE session cases of `nat25_db_handle` that only compute a key and call insert or lookup, and the neighbour-discovery rewriting.
- PPPoE discovery without `addPPPoETag`, and the one-client MAC cache beside it: they add no tag.
- The 32-bit width of `use_count`: it is an unbounded integer here, so a lookup more than two billion times between two inserts is not covered.
- Nat25Table.Nat25Db.Insert: entries are values in a memory indexed by pointers, not Dafny objects; `rtw_malloc` is a parameter that yields an unused pointer or null, so freeing is removal from that memory and every access is proved to be to memory not freed.
- PppoeRelay.SkBuff.InsertDiscovery: frames whose session id is zero on entry; the memory behind the tag, which a little-endian host copies from, is a parameter of any content.
- DhcpChecksum.DhcpFlagBcast: the frame has the bytes that the routine gets to read, which it does not check.
- ScanCache.ScanCache.FreeNetworkQueue: one reading of the clock serves the whole sweep.
- ScanRuns.RecentlySeenIsKept: the removal of a single network on disconnection is not an event of these runs.
- ScanCache.ScanCache.UpdateScannedNetwork: one reading of the clock serves the whole call, and the fields of a network that no code here looks at are not kept.
- CmdMachine.InvHolds: two stop requests at once are not covered, the test and the setting of `stop_req` being one step; a code equal to the table length, for which both table checks read one entry past the end, is excluded; what a callback does with its command is not followed.
- CmdThread.CmdPriv.CmdThread: the handlers of commands are opaque, and signals that interrupt the sleep are steps of the machine only.
- ApStations.Ap.Join: the six `_set` fields of a station are a set of marks; the update of clients' protection after a join is not modelled, nor are the writers of `num_sta_no_ht` in station mode.
- BeaconEdit.AddBcnIe: needs an element with a body at or before the splice point, because the code otherwise follows pointers it has not set; a failed allocation of the backup buffer is not modelled.
- BeaconEdit.UpdateBcnTim: the computed offset lies inside the beacon and the result fits; when that is a boundary between elements is what TimBoundaryIff says, and without one only the splice is promised.
- ElementSearch.GetP2pIe: vendor elements have the four bytes that are compared.
- P2pAttributes.RemoveP2pAttr: vendor elements have the four bytes that are compared, and the attributes of the first P2P element are well-formed.
- GoNegotiation.WifiDirect.ProcessReq: channel list attributes fit the 100 bytes that the handlers copy them into; attributes are read by the codec functions, of which the P2P part is proved apart; group ids, interface addresses and the WPS password id are copied by the code and left out.
- ChannelLists.GetPeerChList: channel lists are well-formed and fit the buffer.
- PowerSequence.Adapter.HalPwrSeqCmdParsing: a table without an end that matches the chip makes the code read past it and is excluded.
- The access control list pool, `rtw_set_ie`, the WPS and WFD codecs and all frame builders: long fixed layouts with easy members.
