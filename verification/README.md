# darkstat: a model of its data structures and protocols

darkstat watches packets and keeps traffic statistics in bounded memory: a table of hosts with
sub-tables of protocols and ports, four round-robin graphs, names from a DNS child process, an
export format, and a small web server. This project models that core in Dafny and proves what
it promises. `dafny verify dfyconfig.toml` checks everything.

Modules follow the program:

- `Buckets`, `HostsSort`, `Chains`, `HashTable`, `Reduction`, `HashSlots`: the partial three-way quicksort in
  place on an array, the chained hash tables on the heap with growth and eviction, and what they
  mean as finite maps.
- `RedBlack`, `RbTree`: the red-black tree, first as values with a zipper for the fix-up loops, then
  as nodes with parent pointers.
- `Addrs`, `DnsProtocol`, `Dns`: the parent and the child of the DNS service, as a transition system and
  as code on the red-black tree.
- `GraphRing`, `GraphLog`, `GraphDb`, `GraphRuns`: one ring by age, whole runs against a plain log, the arrays,
  and runs on the arrays.
- `Bytes`, `HostsDb`, `Export`, `ExportIo`, `ExportLayout`: the export format with its readers and writers, and
  its bytes place by place.
- `Decode`, `Wire`, `Sums`, `Acct`, `AcctEffect`, `Archive`: decoding, what packets written from their headers are
  decoded to, accounting, what is conserved, what one packet does to every counter, and that it can be exported.
- `HttpConn`, `HttpServer`, `SafeUri`: the sender under partial writes, the main loop, and paths.
- `HostEvents`, `Numbers`, `LocalNets`: sessions of hosts, printed numbers, local networks.
- `Wrappers`, `Collections`: an option type and lists without repetition.

Some properties turned out false of the code as it stands. The code is modelled as it is, and each has
its exact condition:

- The rings of minutes and hours miss a jump of the clock that passes exactly one turn of bars in less
  than one turn of seconds (`GraphRing.BlindStepExact`, with an input in `GraphRing.BlindMinute`).
- A clock that reads 0 makes the next rotation a first one, which can leave old bytes in the ring of
  seconds (`GraphLog.SecondsExactly`, `GraphRing.EpochTurnExactly`).
- Sessions of a host can overlap, in runs whose polls at some point wait longer than the poll before
  (`HostEvents.OrderedExactly`, `HostEvents.OverlapExactly`).
- With a limit of 65536 ports, which the command line allows, no port left out and room for more than one
  host, the exporter's assertion on the count of a port table can fail (`Acct.CountsFitExactly`).
- A host whose name is empty comes back from an export without one (`Export.CleanHostExact`, with an input
  in `Export.EmptyNameLost`). Names too long for the format do not arise (`DnsProtocol.AlwaysShort`).

## Model

| member | source | states |
|---|---|---|
| `HostsSort.Cmp` | hosts_sort.c:20-42 | the comparison is negative exactly when the first bucket's figure in the chosen direction is the larger one, so "smaller" means listed earlier |
| `HostsSort.VecSwap` | hosts_sort.c:82-93 | two stretches of the array change places element by element, as the function `VecSwapped` says |
| `HostsSort.VecSwappedAt` | hosts_sort.c:82-93 | where every element is after the exchange |
| `HostsSort.VecSwappedRearranged` | hosts_sort.c:82-93 | the exchange only rearranges, and only inside the stretch |
| `HostsSort.InsertionSort` | hosts_sort.c:123-130 | the insertion sort leaves the stretch as the function `Inserted` says and touches nothing else |
| `HostsSort.InsertedSorted` | hosts_sort.c:171-178 | what insertion leaves is a sorted rearrangement |
| `HostsSort.Med3` | hosts_sort.c:101-110 | the position returned is one of the three, and its bucket lies between the other two |
| `HostsSort.ChoosePivot` | hosts_sort.c:131-142 | the pivot is the middle element, the median of first, middle and last, or for long stretches the median of three such medians, and lies inside the stretch |
| `HostsSort.Partition` | hosts_sort.c:144-170 | the two scanning loops with their parked equal elements compute the step-wise function `Split`, for every array |
| `HostsSort.SplitScans` | hosts_sort.c:147-170 | when the scans have met, elements equal to the pivot are parked at both ends, smaller ones are left and larger ones right of the meeting point |
| `HostsSort.SplitRearranges` | hosts_sort.c:147-170 | scanning only rearranges the stretch |
| `HostsSort.GatheredParted` | hosts_sort.c:180-184 | after the two block exchanges the stretch is smaller, equal, larger in this order, with the sizes the code computes |
| `HostsSort.GatheredRearranged` | hosts_sort.c:180-184 | the block exchanges only rearrange the stretch |
| `HostsSort.Round` | hosts_sort.c:121-184 | one pass of the loop: the stretch is sorted outright or split in three around a pivot, and the middle part is in its final place |
| `HostsSort.SortFront` | hosts_sort.c:185-186 | the recursion on the left part, or its omission when the window lies to the right of it, makes every window position of the front final |
| `HostsSort.QsortBuckets` | hosts_sort.c:112-199 | for every stretch, direction and window the sort ends in a rearrangement in which every position inside the window is final, although sides outside it are never sorted and the window is re-based on each iteration |
| `HostsSort.Sort` | hosts_sort.c:20-199 | the same for a whole table: with either place inside the window, the bucket listed first has no smaller counter of the name asked for, bytes in, bytes out, total or last seen |
| `HashTable.Coprime` | hosts_db.c:90-97 | the multiplier is odd for every table size |
| `HashTable.GrowthSuffices` | hosts_db.c:586-589 | with count at most size - size/5 + 1, growing by one bit always brings the occupancy below the threshold |
| `HashTable.Table.constructor` | hosts_db.c:498-531 | a new table is empty and consistent |
| `HashTable.Table.Search` | hosts_db.c:603-620 | a lookup returns the bucket that the map has for the key, or null exactly when there is none |
| `HashTable.Table.Rehash` | hosts_db.c:545-576 | rehashing keeps the map, the buckets themselves and the count, and leaves every bucket in the slot its key hashes to under the new multiplier and size |
| `HashTable.Table.Insert` | hosts_db.c:578-601 | insertion adds exactly one key, grows the table first when it is crowded, and keeps the occupancy bound |
| `HashTable.Table.FindOrInsert` | hosts_db.c:622-638 | an existing bucket is returned and nothing changes; a new one is added to the map, or to what a reduction leaves of it when that is allowed and the table is full |
| `HashTable.Table.ListBuckets` | hosts_db.c:730-739 | walking all chains lists every bucket once, as many as the count says |
| `HashTable.Table.FindCutoff` | hosts_db.c:740-742 | the element that the partial sort puts at index count_keep splits the totals: at most count_keep exceed it and more than count_keep reach it |
| `HashTable.SortedCutoff` | hosts_db.c:740-741 | that splitting, for every list whose element at the index is final |
| `HashTable.Table.PruneChain` | hosts_db.c:746-764 | unlinking in one pass leaves the chain of exactly the buckets above the cutoff, in order |
| `HashTable.Table.Prune` | hosts_db.c:744-765 | the map keeps exactly the buckets above the cutoff and the count follows |
| `HashTable.Table.Reduce` | hosts_db.c:721-767 | exactly the buckets whose total exceeds the (count_keep+1)-th largest survive, at most count_keep of them, still filed under their keys |
| `HashTable.Table.ReduceIfFull` | hosts_db.c:769-774 | a table below its maximum is untouched; otherwise it is reduced below the maximum |
| `HashTable.Table.Reset` | hosts_db.c:776-796 | the table is empty and consistent afterwards |
| `HashTable.SurvivorCount` | hosts_db.c:599-599 | in every consistent state the count is the number of chained buckets and of keys |
| `Reduction.CutoffIsTrim` | hosts_db.c:721-767 | what the sort and the cutoff leave is independent of both: a key stays exactly if no more than count_keep keys reach its total |
| `HashSlots.NoCollision` | hosts_db.c:148-158 | different keys of at most w bits never share a slot in a table of at least w bits, because the multiplier is odd (32-bit products included) |
| `HashSlots.SingleChains` | hosts_db.c:148-158 | so in such a table of bytes or ports no chain is longer than one bucket |
| `RedBlack.InsertRoundLeftPending` | tree.h:153-170 | a round of the insertion fix-up on the left keeps the only possible fault a red parent, and moves it up or ends |
| `RedBlack.InsertRoundRightPending` | tree.h:171-187 | the mirror image |
| `RedBlack.InsertRoundLeftOrder` | tree.h:153-170 | a round does not change the in-order sequence |
| `RedBlack.InsertSettled` | tree.h:151-190 | when the loop stops, blackening the root gives a black root, no red node with a red child and equal black heights |
| `RedBlack.SiblingLeftPending` | tree.h:198-205 | the sibling that the removal fix-up asserts to exist does exist and is black after the first rotation |
| `RedBlack.RemoveRoundLeftPending` | tree.h:206-231 | a round of the removal fix-up either moves the missing black up or repairs the tree |
| `RedBlack.RemoveRoundRightPending` | tree.h:232-265 | the mirror image |
| `RedBlack.RemoveRoundLeftOrder` | tree.h:198-231 | the removal rounds do not change the in-order sequence |
| `RedBlack.RemoveSettled` | tree.h:268-269 | when that loop stops, blackening the element gives a balanced tree |
| `RedBlack.SpliceLeaves` | tree.h:322-336 | cutting out a node with at most one child leaves a tree that is sound, or short of one black if the node was black |
| `RedBlack.SuccessorOrder` | tree.h:281-321 | putting the successor in the place of the removed node removes exactly that node from the sequence |
| `RbTree.RbTree.RotateLeft` | tree.h:80-98 | the pointer rotation, parent links and root included, is the rotation of the tree |
| `RbTree.RbTree.RotateRight` | tree.h:100-118 | the mirror image |
| `RbTree.RbTree.InsertColor` | tree.h:147-190 | the pointer loop restores balance without changing the sequence and never meets its assertion |
| `RbTree.RbTree.RemoveColor` | tree.h:192-270 | the pointer loop of the removal restores balance without changing the sequence; its assertions hold |
| `RbTree.RbTree.Insert` | tree.h:340-369 | insertion keeps search order, parent links and balance; it returns the element with the same key if there is one and then changes nothing, else the set grows by exactly the given node |
| `RbTree.RbTree.Remove` | tree.h:272-338 | removal keeps all of that and takes exactly the given node out of the set |
| `RbTree.RbTree.Find` | tree.h:371-387 | search finds a node exactly when the key is in the set |
| `RbTree.RbTree.KeysWithout` | tree.h:272-338 | removing a node removes exactly its key |
| `Addrs.MemCmpValue` | dns.c:106-111 | comparing bytes is comparing the big-endian numbers they make, and equal only for equal bytes |
| `Addrs.TreeCmpIsCodeOrder` | dns.c:99-112 | the comparison is a total order over both families that tells all addresses apart |
| `DnsProtocol.QueuedKeeps` | dns.c:117-149 | queueing an unnamed host keeps the protocol invariant, whether or not the write succeeds |
| `DnsProtocol.ConsumedKeeps` | dns.c:169-245 | taking a reply keeps it, finds the address queued and finds no name in the way |
| `DnsProtocol.PolledKeeps` | dns.c:220-245 | so does a whole poll, with its early returns |
| `DnsProtocol.ChildKeeps` | dns.c:302-394 | so do the reading and the answering of the child |
| `DnsProtocol.AlwaysInvariant` | dns.c:117-394 | in every interleaving of parent, child, host arrival, eviction and reset: requests written = replies consumed ++ reply channel ++ child queue ++ request channel, no address is in flight twice, the tree holds exactly the addresses in flight or lost, and no named host is in it |
| `DnsProtocol.ComplaintsUnreachable` | dns.c:151-163 | the "not in queue" and "already in the DB" branches are never taken |
| `DnsProtocol.RepliesInOrder` | dns.c:256-281 | replies come back in the order of the requests, at most one each |
| `DnsProtocol.DrainedTree` | dns.c:142-163 | when nothing is in flight the tree holds exactly the addresses whose write failed |
| `DnsProtocol.AlwaysShort` | dns.c:45-49 | no host ever gets a name of more than 255 characters |
| `DnsProtocol.LostForever` | dns.c:142-146 | after an ignored write error the address stays queued for good and its host never gets a name |
| `DnsProtocol.LabelRight` | dns.c:169-209 | the name a reply gives is the first 255 characters of what was looked up, or without that the label of the address's range of numbers |
| `DnsProtocol.AlwaysAnswered` | dns.c:267-394 | in every run the replies on their way answer exactly the requests they belong to, with what the child looked up for that address |
| `DnsProtocol.PollNames` | dns.c:220-245 | in every run a poll gives a host that is still in the database the name in the answer to its own request, changes no other host, and stops early only at an answer for a host that is gone |
| `DnsProtocol.OtherSteps` | dns.c:220-245 | no other step gives or changes a name |
| `Dns.Resolver.DnsQueue` | dns.c:117-149 | the code on the red-black tree takes exactly the protocol's queueing step |
| `Dns.Resolver.DnsUnqueue` | dns.c:151-163 | removes the address and reports whether it was there |
| `Dns.Resolver.ConsumeOne` | dns.c:169-218 | taking one reply is the protocol's step, and tells whether the loop goes on |
| `Dns.Resolver.DnsPoll` | dns.c:220-245 | the polling loop takes exactly the protocol's polling step |
| `Dns.Resolver.Enqueue` | dns.c:314-336 | the child's read is the protocol's step |
| `Dns.Resolver.DequeueAndAnswer` | dns.c:267-394 | the child's answer is the protocol's step |
| `GraphRing.AdvancedView` | graph_db.c:102-110 | advancing shifts the age-indexed view by the number of bars passed, fills with zeros, and ends at the new position |
| `GraphRing.RotatedView` | graph_db.c:112-139 | rotating does not change the age-indexed view |
| `GraphRing.AccountedView` | graph_db.c:91-100 | accounting adds to the youngest bar only |
| `GraphRing.ZeroedView` | graph_db.c:61-64 | zeroing is a shift by a whole turn |
| `GraphRing.TurnedShifts` | graph_db.c:178-222 | what a rotation does to any running ring, the ring of days included, whatever the calendar gives |
| `GraphRing.TurnedView` | graph_db.c:178-222 | for seconds, minutes and hours a rotation shifts the view by exactly the bars that have passed unless the step is blind, and then not at all |
| `GraphRing.BlindStepExact` | graph_db.c:212-215 | the rotation is right if and only if the step is not blind or the ring holds nothing |
| `GraphRing.SecondsNeverBlind` | graph_db.c:212-215 | the ring of seconds has no blind steps |
| `GraphRing.BlindMinute` | graph_db.c:212-215 | a blind step at work: a ring of minutes still shows bytes in its current bar after 3541 seconds that pass sixty bars |
| `GraphRing.EpochTurnExactly` | graph_db.c:186-195 | the rotation after a time of 0, which the code takes for the first, is right for every ring if and only if no bar has passed and the position is the same |
| `GraphRing.LeapSecond` | graph_db.c:102-110 | second 60 is a position that advance never gets to and that the first rotation must not store |
| `GraphLog.TurnedAgrees` | graph_db.c:178-222 | a step that is not blind keeps ring and log in agreement |
| `GraphLog.RunAgrees` | graph_db.c:91-222 | over every run of resets, rotations and accounting without blind steps or steps from a time of 0, the bar of age k holds exactly the bytes accounted k bars of elapsed time ago, in 64-bit arithmetic |
| `GraphLog.SecondsExactly` | darkstat.c:448-457 | the seconds graph shows at every turn exactly what was accounted so many seconds of elapsed time ago, for all packets, resets and jumps of the clock forward and backward, if and only if every step from a clock reading of 0 is harmless: back to the same place in the minute, or forward by less than takes anything shown past the end |
| `GraphLog.NeverZeroUnharmed` | graph_db.c:186-195 | a clock that never reads 0 does no harm |
| `GraphDb.Graph.Advance` | graph_db.c:102-110 | the loop on the two arrays ends and advances the ring |
| `GraphDb.Graph.Rotate` | graph_db.c:112-139 | the two copying loops through a temporary array rotate the ring; the assertion on the position holds |
| `GraphDb.Graphs.constructor` | graph_db.c:52-59 | four graphs of 60, 60, 24 and 31 bars that share nothing |
| `GraphDb.Graphs.Acct` | graph_db.c:91-100 | accounts in all four graphs, in one direction |
| `GraphDb.Graphs.Reset` | graph_db.c:66-80 | all four graphs are zeroed, the start times taken and the last time forgotten |
| `GraphDb.Graphs.GraphRotate` | graph_db.c:141-222 | all four graphs turn, each by the rule of its own span; a leap second is brought back to 59 when the clock goes back |
| `GraphDb.TurnedPositions` | graph_db.c:141-222 | after a rotation that moves the clock or is the first one the four positions are the second, the minute, the hour and the day of the month less one |
| `GraphRuns.PlayTurn` | darkstat.c:448-457 | a turn of the main loop on the arrays is a turn of the log model for the graphs of seconds, minutes and hours, when the calendar shows the local time |
| `GraphRuns.Play` | darkstat.c:414-465 | so is every run of turns |
| `GraphRuns.PlaySeconds` | graph_db.c:91-222 | from a reset, if no step from a reading of 0 does harm, the arrays of the graph of seconds hold, a places before the current one, exactly the bytes accounted a seconds of elapsed time ago |
| `Bytes.Hton64Portable` | db.c:28-46 | converting twice is the identity, and what is written is in network order on machines of either byte order |
| `Bytes.Write64Portable` | db.c:242-251 | the bytes that write64 leaves in memory, on a machine of either byte order, are the number in network order |
| `Bytes.Be` | db.c:226-251 | the bytes written stand for the number |
| `Bytes.BeOfValue` | db.c:121-144 | no other bytes of that length do |
| `Export.Get64Put` | db.c:182-251 | reading a 64-bit number that was written gives it back and leaves the rest |
| `Export.GetAddrPut` | db.c:159-270 | the same for an address of either family |
| `Export.GetNamePut` | hosts_db.c:1777-1791 | a name comes back cut off at 255 characters, and an empty one as none |
| `Export.GetRowPut` | hosts_db.c:1672-1689 | one protocol or port comes back with its total computed anew and its SYN count where the format has one |
| `Export.StoreAllLists` | hosts_db.c:1632-1723 | storing what an export lists never reduces a table within the same limits, and builds exactly the listed table |
| `Export.GetTablePut` | hosts_db.c:1902-1996 | a table of any of the five kinds, in any order of its entries, comes back |
| `Export.GetRecordPut` | hosts_db.c:1729-1897 | a host record of version 1, 2, 3 or 4 comes back with the parts that the version has |
| `Export.VersionTables` | export-format.txt:52-58 | older versions load like version 4 with the remote ports empty |
| `Export.GetHostsPut` | hosts_db.c:1825-1835 | a list of records of any one version fills an empty database with exactly the listed hosts |
| `Export.GetRingPut` | graph_db.c:238-265 | a graph comes back with its position and all its bars |
| `Export.GetFilePut` | db.c:295-339 | importing what was exported, for any order of hosts and entries and any bytes behind it, restores hosts and graphs and leaves exactly those bytes |
| `Export.Moved` | now.c:123-131 | the time a host was last seen is the same real time on the importing machine's clocks |
| `Export.SignedUnsigned` | now.c:123-131 | a time survives the 64-bit field exactly if it fits a signed 64-bit number |
| `Export.CleanHostExact` | hosts_db.c:1841-1897 | but for its latest packet, a host comes back unchanged if and only if its totals add up, its name is missing or has 1 to 255 characters, and its time fits |
| `Export.EmptyNameLost` | hosts_db.c:1864-1879 | an empty name comes back as none |
| `Export.PicturesExist` | hosts_db.c:1848-1849 | every database has a listing of its hosts and of their tables |
| `Export.RoundTrip` | db.c:295-339 | so a clean database and the four graphs make the round trip |
| `ExportLayout.RecordPlaces` | hosts_db.c:1841-1996 | the bytes of a host record of any version, place by place: tag, family, address, time, MAC address, name, counters in and out, and the tables with every row |
| `ExportLayout.RingPlaces` | graph_db.c:274-288 | the bytes of a graph: number of bars, position, and for every bar its bytes in and then its bytes out |
| `ExportLayout.FilePlaces` | export-format.txt:4-58 | every byte of a file at its place, for any order of hosts and rows: the three headers, the count, every host, the last time, the four graphs |
| `ExportIo.File.ImportTable` | hosts_db.c:1632-1723 | the loops that load a table on a moving cursor compute what the format's reader defines |
| `ExportIo.File.ImportHost` | hosts_db.c:1729-1816 | the same for one host record |
| `ExportIo.File.Import` | db.c:295-305 | the same for a whole file, failures included |
| `ExportIo.File.ExportTable` | hosts_db.c:1902-1996 | the loop writes exactly the bytes of the table |
| `ExportIo.File.ExportHost` | hosts_db.c:1848-1895 | the same for one host |
| `ExportIo.File.WriteRings` | graph_db.c:274-288 | the same for the graphs |
| `ExportIo.File.Export` | db.c:324-339 | the same for a whole file |
| `ExportIo.Databases.Import` | db.c:307-322 | a file that cannot be read leaves both databases reset |
| `ExportIo.Databases.Transfer` | db.c:307-339 | exporting from one set of databases and importing into another copies a clean one |
| `HostsDb.TrimKeeps` | hosts_db.c:721-767 | reducing a table keeps at most the given number, and every survivor strictly beats everything removed |
| `HostsDb.FindOrInsert` | hosts_db.c:624-638 | the key is there afterwards, with its old entry if it had one; other entries are unchanged, and all stay unless the table was full and the key new, when at most count_keep do |
| `Acct.ChargesPresent` | acct.c:206-235 | the source fetched first is still in the table after the destination went in, so every end that is charged is there |
| `Acct.ReducedRoom` | hosts_db.c:728-774 | a reduction of hosts is only asked for when there are more than will be kept, and leaves room |
| `Acct.StepTotal` | acct.c:162-315 | what one packet adds to any figure summed over live and evicted hosts |
| `Acct.ChargesBalance` | acct.c:253-309 | a packet adds the same bytes and SYN packets to local and to remote ports |
| `Acct.BytesConserved` | acct.c:188-235 | after every run of packets from a reset, out bytes of live and evicted hosts together equal the total accounted, modulo 2^64, and so do in bytes |
| `Acct.PortsBalance` | acct.c:253-309 | after every run without an eviction from the two tables in question, the sums over local ports equal those over remote ports, for TCP and UDP, in and out and SYN packets |
| `Acct.ProtosConserved` | acct.c:237-249 | after every run the tables of protocols, of live and evicted hosts together, hold exactly the bytes of the packets whose protocol was decoded, sent and received alike |
| `Acct.WideNeverEvicts` | hosts_db.c:820-889 | tables of protocols are never reduced, and tables of ports are not if their limit is above the highest port accounted for |
| `Acct.AlwaysSound` | acct.c:206-315 | after every run: total = in + out in every bucket, six bytes in every MAC address, at most hosts_max + 1 hosts, at most ports_max entries in every port table, only allowed keys |
| `Acct.ProtosBound` | hosts_db.c:877-889 | a table of protocols has at most 255 entries, so it is never reduced and its count fits a byte |
| `Acct.CountsFitAlways` | hosts_db.c:1951-1952 | if at least one port or entry is left out by the options, every port count fits the two bytes of the export |
| `Acct.CountsFitExactly` | hosts_db.c:1951-1952 | and, with room for more than one host, only then: otherwise some run of packets makes the assertion in the exporter fail |
| `Acct.FewHostsFit` | hosts_db.c:1951-1952 | with room for at most one host no table of ports grows, so the counts always fit |
| `Acct.LastSeenRule` | acct.c:210-235 | a packet sets the last-seen time of its source and of no other host, and the MAC address and latest ports of both ends; names stay |
| `AcctEffect.PacketEffect` | acct.c:237-309 | where there is room, every table of every host gains exactly the touched keys, and every entry exactly what the packet counts for it: a source its protocol and its own port as out and the remote port it sends to as in, a destination its protocol and its own port as in, with the SYN, and the remote port as out; a packet from a host to itself counts as both |
| `AcctEffect.HostEffect` | acct.c:183-235 | the hosts after a packet are those that the reduction leaves and the ends that take part; the source's out, the destination's in, both totals and the global totals grow by exactly the packet |
| `AcctEffect.GraphEffect` | acct.c:188-200 | of every graph only the current bar changes: out by what leaves the local networks, in by what enters them |
| `AcctEffect.ReducedExactly` | hosts_db.c:769-774 | hosts are reduced only at the maximum, to those whose total no more than hosts_keep hosts reach |
| `AcctEffect.InsertedExactly` | hosts_db.c:622-638 | a new key goes into a table as it is below the maximum, and into what a reduction leaves of it otherwise |
| `Acct.Accounting.AcctFor` | acct.c:162-315 | the accounting code takes exactly the modelled step, and the graphs account for traffic that crosses the border only, in its direction |
| `Acct.Accounting.Reset` | darkstat.c:448-454 | hosts, totals and graphs are reset |
| `Archive.SoundIsClean` | hosts_db.c:1841-1897 | what accounting produces is clean for export but for names and times |
| `Archive.RunsListed` | hosts_db.c:1841-1996 | if the port counts fit, any listing of the database of any run of packets meets all that export and import ask for: counts, key widths, limits, MAC addresses |
| `Archive.RunsSurvive` | db.c:295-339 | the database of any run of packets, with whatever names its hosts have got since, has a listing, and every listing of it survives export and import |
| `HttpConn.PollValid` | http.c:763-930 | every poll of a connection keeps its invariant, whatever the socket accepts |
| `HttpConn.PollKeeps` | http.c:811-930 | once chosen an answer stays, and bytes sent are never taken back |
| `HttpConn.AnswerDelivered` | http.c:380-414 | a connection that finishes unbroken has sent the answer to all that came in, whole: a header, and after it as many characters as the digits of its Content-Length say, or none for HEAD |
| `HttpConn.SentIsPrefix` | http.c:728-930 | under any sequence of partial reads and writes the bytes sent are a prefix of header ++ reply (the header alone for HEAD) of the answer to all that came in, delivered whole at an unbroken finish; total_sent is the number of bytes modulo 2^32 |
| `HttpConn.AnswersRequest` | http.c:763-804 | whatever pieces a request comes in: as soon as their concatenation ends with a blank line after at least one character, or exceeds 4000 characters, the connection sends the answer to all of it, or the complaint about its length; before that it sends nothing |
| `HttpConn.BreaksExactly` | http.c:770-776 | a poll breaks a connection exactly if nothing was received or written |
| `HttpConn.EverythingArrives` | http.c:811-930 | if the socket takes at least one byte at every poll, the answer to a request arrives in full within as many polls as it has characters |
| `HttpServer.Connection.PollRecvRequest` | http.c:763-804 | receiving, with its length limit and the choice of the next state, is the modelled step, about which `HttpConn.AnswersRequest` says what is answered; receiving something counts as activity |
| `HttpServer.Connection.PollSendHeaderAndReply` | http.c:811-861 | so is the combined write with its three-way split of what was accepted; it counts as activity |
| `HttpServer.Connection.PollSendHeader` | http.c:866-894 | so is the header write |
| `HttpServer.Connection.PollSendReply` | http.c:901-930 | so is the reply write |
| `HttpServer.Connection.Dispatch` | http.c:1188-1209 | the dispatch reaches no connection that is done |
| `HttpServer.Server.FdSet` | http.c:1104-1172 | exactly the connections that are neither done nor idle for 60 seconds stay, unchanged and in order, as long idle as before |
| `HttpServer.Server.PollAll` | http.c:1179-1210 | every connection that is ready is served exactly once and its time of activity set, the others are unchanged, new ones go in front |
| `HttpServer.Server.MainLoop` | darkstat.c:414-465 | over every run of the main loop http_poll never meets a connection that is done, and every connection keeps its invariant and answers exactly what it received, as `HttpConn.AnswerDelivered` needs |
| `SafeUri.ConsolidateSlashes` | http.c:151-176 | the in-place loop leaves the string with every run of slashes reduced to one |
| `SafeUri.SafeConsolidated` | http.c:184-193 | that does not change the outcome |
| `SafeUri.ResolveSegments` | http.c:196-236 | the loop over the array of segments computes the stack fold and never runs out of the array, which has one place for each slash |
| `SafeUri.Reassemble` | http.c:238-257 | the pieces are put together inside the buffer; both assertions on the position hold |
| `SafeUri.MakeSafeUri` | http.c:184-265 | for every string: none exactly if there is no leading slash or some ".." meets an empty stack, else the rendered stack, with a slash at the end if the path had one or the stack is empty |
| `SafeUri.SafeShape` | http.c:180-183 | the result has only plain segments, starts with a slash and is a fixed point |
| `SafeUri.SafeNoLonger` | http.c:239-256 | the result is never longer than the path |
| `SafeUri.DownOne` | http.c:233-233 | a plain segment at the end of a path goes one level down |
| `SafeUri.UpOne` | http.c:205-236 | a plain segment followed by ".." makes no difference, nor does "." or an empty one |
| `SafeUri.SafeUpOne` | http.c:180-193 | so p/x/.. has the same outcome as p |
| `SafeUri.DepthExactly` | http.c:205-236 | there is no result exactly if some prefix has more ".." than plain segments, and otherwise the depth is their difference |
| `SafeUri.SafeFailsExactly` | http.c:184-236 | a path is refused exactly if it is empty, does not start with a slash or goes above the root, counting depths |
| `SafeUri.InitBase` | http.c:937-964 | a base URL always starts and ends with a slash |
| `Decode.SnapLenSuffices` | decode.c:131-136 | cutting any packet off at the computed length or later changes neither the result nor any field of the summary, for every link type and PPPoE mode |
| `Decode.SnapLenExact` | cap.c:162-167 | for every link type there is a packet that loses its ports with one byte less |
| `Decode.PortsCut` | decode.c:355-390 | twenty bytes of transport header are enough |
| `Decode.Ipv6Cut` | decode.c:328-353 | sixty bytes of IPv6 are enough |
| `Decode.IpCut` | decode.c:300-326 | and they are for IPv4 |
| `Decode.PppoeCut` | decode.c:278-298 | PPPoE needs eight more |
| `Decode.DecodedValid` | decode.c:138-390 | every field of a summary stays within its width, the MAC addresses included |
| `Wire.HeadersDecoded` | decode.c:138-390 | for every link type and PPPoE mode, a packet written out from its headers (addresses, length, protocol, ports, TCP flags, MAC addresses, whatever the other fields are) is decoded to exactly these fields |
| `Wire.OkExactly` | decode.c:138-390 | decoding succeeds exactly if, by position, it is framed as its link and mode ask and has a whole IP header of version 4 or 6, or of 6 only where the link says so |
| `HostEvents.RunCounts` | hosts_db.c:1335-1361 | over every run of packets and polls event_seq is 1 plus the number of polls that found the host active where the poll before had not, and the open flag is the activity at the last poll |
| `HostEvents.RunTimes` | hosts_db.c:1342-1360 | the opening time is that of the last packet before the poll that opened the latest session, the closing time that of the first of the polls that have found the host inactive since, or 0 while the session is open |
| `HostEvents.OverlapExactly` | hosts_db.c:1350-1360 | a session opens before the one before it closed exactly when a poll finds the host active although it was closed and no packet has come since |
| `HostEvents.OrderedExactly` | hosts_db.h:26-33 | for every list of close times: all runs with a clock that never goes back whose polls use these times keep sessions in order if and only if the list never increases |
| `HostEvents.ClosesAfterOpening` | hosts_db.h:26-33 | a session never closes before it opened |
| `HostEvents.Host.Play` | acct.c:215-215 | any sequence of packets and polls leaves the fields as the events say |
| `HostEvents.Host.EventUpdate` | hosts_db.c:1335-1361 | the code takes the modelled step |
| `Numbers.Str.Appendn` | str.c:65-76 | appending extends the contents by exactly the text, whatever the pool has to grow to |
| `Numbers.PrintU32` | str.c:105-137 | the digits, filled in from the right of a buffer of 13 characters, are the number as printed |
| `Numbers.PrintU64` | str.c:149-202 | the same for 64 bits and 26 characters; switching to 32-bit arithmetic half-way does not show |
| `Numbers.Str.AppendU32` | str.c:105-137 | and that is what is appended |
| `Numbers.Str.AppendU64` | str.c:149-202 | and that is what is appended |
| `Numbers.PrintedParses` | str.c:99-202 | what is printed parses back to the number and has no leading zero |
| `Numbers.GroupedSeparators` | str.c:131-134 | counted from the right, every fourth character is a separator and no other |
| `Numbers.PrintedFits` | str.c:99-103 | the buffer sizes suffice |
| `LocalNets.BuildMask` | acct.c:98-114 | the loop fills in the mask of every prefix length, without leaving the array at full length |
| `LocalNets.MaskIsPrefix` | acct.c:98-114 | masked addresses are equal exactly when their first p bits agree (section 3.1 of RFC 4632) |
| `LocalNets.AddrMask` | addr.c:71-83 | masking in place, byte by byte |
| `LocalNets.AddrInside` | addr.c:85-96 | true exactly when the masked address is the network |
| `LocalNets.PrefixBelongs` | acct.c:83-115 | an address belongs to a network given with a prefix length exactly when it is of its family and shares that many first bits |
| `LocalNets.Locals.InitLocalnet` | acct.c:77-137 | a network is registered with its family, masked, whether the mask is a prefix length or an address; bad lengths and mixed families are refused |
| `LocalNets.Locals.IsLocalip` | localip.c:153-162 | true exactly for the addresses of the interface |
| `LocalNets.Locals.AddrIsLocal` | acct.c:143-160 | true exactly when the address is one of the interface's or agrees with a registered network of its family where its mask looks |

## Left out

- The capture library, sockets, fork, signals, dropping privileges, pid files, logging: packets, bytes accepted, write failures and clock values are inputs.
- HTML, XML, JSON and Prometheus rendering, style sheets and scripts: only that a reply is not empty is used.
- zlib, getaddrinfo, getnameinfo, inet_ntop: results are arbitrary values.
- Request parsing (`parse_request`, `qs_get`, `urldecode`) and the table of pages: the site is an arbitrary function from requests to answers.
- `RB_NEXT`, `RB_NFIND`, `RB_PREV`, `RB_MINMAX`: the DNS code does not depend on them; `ncache.c`, `daylog.c`, `localip.c` (but for the lookup) and `linktypes.c` would add only easy members.
- `getlinkhdr`: a search in a constant table; link types are a datatype here.
- `length_of_time` and the signed and hexadecimal printers: thin layers over the printers modelled.
- `localtime` and time zones: bar indices are the second, minute and hour of a time with a constant offset; daylight saving changes are outside the run theorems. The ring of days has the theorems about one rotation only, for any calendar.
- Memory: `malloc` failure and `free` are not modelled; removed buckets and nodes are simply no longer reachable from the structure.
- The statistics counters of the hash tables, and sizes from 2^32 on (`1U << bits`), which no table reaches.
- HashTable.Table.FindOrInsert: asks for fewer than 2^31 buckets, as the sort works with `int` offsets; the same holds for `Reduce`, `FindCutoff`, `ReduceIfFull` and for arrays in `HostsSort.Sort`.
- RbTree.RbTree.RotateLeft: the new child is hooked into its parent after the two nodes have changed places, not between; the same holds for `RotateRight`.
- RbTree.RbTree.Insert: keys are integers; for addresses they are the codes that `Addrs.TreeCmpIsCodeOrder` proves to be in the order of the code's comparison.
- ExportIo.File.Import: a read that stops in the middle of a 2-, 4- or 8-byte number fails here, where the code takes the bytes it got; an import into a host that already has a name fails, where the code stops with an assertion. Both need a file that no export has written.
- Export.GetFilePut: the sessions of a host, which are not exported, are not part of a host here but of `HostEvents`; tables that the code has not created yet are empty tables; signed overflow in clock conversion, which C leaves undefined, does not occur.
- Bytes.Hton64Portable: is about words and their bytes; that the bytes are those of the number is `Bytes.Write64Portable`, where a word is put together from its bytes by shifting.
- Acct.Accounting.AcctFor: takes whether the ends are local as given (`LocalNets` models that) and leaves out the daylog. Tables are finite maps here, which `HashTable` refines.
- Acct.BytesConserved: is stated modulo 2^64, as the counters wrap round.
- Archive.RunsSurvive: is for fewer than 2^32 - 1 hosts, whose number is written as 32 bits, and for names and times that the format holds.
- HostEvents.RunCounts: is for fewer than 2^64 - 1 events, after which event_seq could wrap round; so are the theorems about the order of sessions.
- GraphDb.Graphs.GraphRotate: does not take a leap second when the clock goes forward or is read for the first time; `GraphRing.LeapSecond` says what becomes of the code then.
- HashTable.Table.Rehash: asks for a size that the present count does not crowd, as its callers do, and assigns the fields when the new table is filled, not before; nobody looks in between.
- LocalNets.Locals.InitLocalnet: starts after the argument has been split and parsed, and refuses where the code exits.
- Decode.SnapLenSuffices: the address family words of loopback packets are four bytes given by the platform.
