# Watt-32: proofs about its algorithmic cores

This project models nine self-contained cores of the Watt-32 TCP/IP stack and its programs, and proves what they are for.
`dafny verify dfyconfig.toml` checks everything.

- **Subnet allocator** (`bin/vlsm.c`). `VlsmBlocks`, `VlsmTree`, `VlsmAlloc` and `VlsmEdit` describe the tree and its operations
  as values, `VlsmRuns` whole sessions with saving and loading, `VlsmTiles` conservation of address space, `VlsmWritten` sessions
  with the upward walk exactly as the code has it. `VlsmHeap` is the code
  itself: heap nodes with kid and parent pointers and hole numbers, changed in place, each method proved to compute its specification.
- **CRC** (`src/crc.c`). `Crc` defines division of polynomials over GF(2), proves that the table and the loop compute its remainder,
  and derives which errors are detected.
- **GeoIP** (`bin/geoip.c`). `GeoTrie` has the trie walk over a file and the range finder, `GeoText` the dotted notation.
- **Search tree** (`src/btree.c`). `BTreeSpec` is the tree as a value and the map it stands for, `BTreeHeap` the pointer code.
- **Listen queue** (`src/accept.c`, `src/close.c`). `ListenQueue` follows connection blocks between the queue, sockets and the list
  of all blocks. A tick of the TCP engine is an arbitrary sequence of events.
- **Internet checksum** (`src/chksum.c`, RFC 1071). `Checksum`.
- **Host cache** (`src/gethost.c`). `HostCache` is the cache as a function of its list, with the resolver as an oracle and a clock that
  does not go back; `HostCacheHeap` the linked list.
- **Domain names** (`bin/host.c`, RFC 1035). `DnsName`.
- **IP2Location** (`bin/IP2Loc.c`). `Ip2Location` has the binary search with and without an index.
- `Basics` holds bits, powers of two and the arithmetic that several modules use.

## What turned out different from the intent

- `del_net` and `grow_net` read both kids of every ancestor of the parent, though one may be missing. The model's walk lets a half without
  a kid keep its hole number. `VlsmEdit.DelFaultsIff` and `VlsmEdit.GrowFaultsIff` say exactly when the walk as written meets a null kid;
  `VlsmTiles.FirstFreeFaults` and `VlsmWritten.FirstGrowFaults` show that it does in ordinary sessions. Where it does not, the code as
  written and the model do the same (`VlsmWritten.AsWrittenIff`), so every result about sessions holds of the code as written too.
- `del_net` does not remove parents that lose their last kid. Their hole number then understates the space, so exactness holds
  exactly without such nodes (`VlsmTree.ExactIffNoHollow`), in particular in sessions that free nothing. Safety, conservation, the
  exact conditions under which a request is granted, and save-then-load hold in all sessions.
- `GeoIP_addr_to_num` checks an octet after it may have wrapped at 2 to the power 32 (`GeoText.WrappedOctet`); `GeoText.ParseFour` gives the result for all fields.
- ALLOCATE never fills a power of two: for 6 hosts, which the table of sizes gives for 29 network bits, it takes 28 (`VlsmRuns.NetBits`).
- A cached reply with a lifetime of 0 never expires (`HostCache.ZeroLifeStays`).
- `Unpackdom` does not look for the end mark after a pointer, so a pointer to the root is not the end of the name
  (`DnsName.WrittenIffRootFree`, `DnsName.RootPointerExample`). For the root itself, and only for it, the final zero goes before
  the buffer (`DnsName.Unpackdom`, whose memory has a byte there).
- A closed connection with unread data keeps its ip_type when it is unthreaded, and is then neither reaped nor accepted: it holds its slot until
  the listening socket is closed (`ListenQueue.ClosedSlot`, `ListenQueue.Listener.Unthread`).
- The IPv6 search of IP2Location has no step like the one that keeps 255.255.255.255 below the end row; `Ip2Location.GetIpv6Record` says when it
  reads past it, and `Ip2Location.LastAddressPastEnd` gives the address for which it always does.

## Assumptions

- Network bits are at most 32 and the root address is masked to them, as the commands intend. `find_net` stops below 32 bits, where the C shift is undefined.
- Bytes are 0 to 255; `char` is taken as unsigned in `crc_bytes`, `Packdom` and `Unpackdom`. Words are unsigned of 32 bits where they can wrap; the plain sum of
  `in_checksum` is unbounded, and `Checksum.TotalFits` says when a 32-bit `long` suffices. Masks and shifts of addresses are stated by bits and block arithmetic.
- A GeoIP file is well formed when every path reaches a value within the width of the address (32 or 128 bits, a parameter here); for other files the lookup returns 0.
- A comparison function of the search tree is a total order up to equality.
- An IP2Location table is sorted, begins at 0 and, for IPv4, ends at the last address; its positions fit 32 bits and the number of rows is below 2 to the power 30.
- `Unpackdom` gets a large enough buffer and a message in which pointers go strictly back before the segment they end; its test against the buffer size is always true.
- A new socket number from `socket()` is not in use. Ghost values record which block is where; they are not part of the program.

## Model

| member | source | states |
|---|---|---|
| VlsmAlloc.AllocTakesOpen | bin/vlsm.c:776-860 | a granted block has the size asked for, was open before, and is the only change to the set of allocated blocks |
| VlsmAlloc.FailureChangesNothing | bin/vlsm.c:836-840 | a failed allocation leaves every node and every hole number as it was, in any state, also after deletions |
| VlsmAlloc.UnrequestedPlace | bin/vlsm.c:822-834 | without a request the search ends at the first address of the leftmost largest hole |
| VlsmAlloc.RequestedPlace | bin/vlsm.c:809-821 | with a request for an address of the tree's block the block granted is the aligned one that holds the address |
| VlsmAlloc.RequestGranted | bin/vlsm.c:776-860 | in any state a request for an address succeeds iff the aligned block holding it is open: outside every allocated block and not itself a kidless inner node |
| VlsmAlloc.SomeBlockGranted | bin/vlsm.c:776-860 | in any state a request for a size succeeds iff some aligned block of that size is open |
| VlsmAlloc.TooLarge | bin/vlsm.c:796-840 | a block as large as the root block or larger is refused once the root has kids |
| VlsmAlloc.RequestModuloBlock | bin/vlsm.c:811 | only the bits of a request below the root prefix steer the search |
| VlsmAlloc.RequestOutside | bin/vlsm.c:809-821 | an address outside the root block asks for the same as the one inside that differs from it by a multiple of the block |
| VlsmAlloc.AllocShape | bin/vlsm.c:776-860 | allocation keeps the tree well formed: addresses, levels, hole numbers and leaves |
| VlsmAlloc.AllocNoHollow | bin/vlsm.c:776-860 | allocation makes no kidless inner node |
| VlsmTree.HoleBounds | bin/vlsm.c:796-860 | hole numbers lie above the level and are at most 33, so the guard always ends the search |
| VlsmTree.LeavesAscending | bin/vlsm.c:755-770 | the allocated blocks are listed in ascending order and do not overlap |
| VlsmTree.OpenBound | bin/vlsm.c:836-840 | an open block is never larger than the hole number of its subtree says, so the guard refuses nothing it should grant |
| VlsmTree.HoleWitness | bin/vlsm.c:822-834 | the hole number is met by an open block |
| VlsmTree.HoleLeftmost | bin/vlsm.c:822-834 | the hole that the search goes to is the leftmost of the largest |
| VlsmTree.ExactIffNoHollow | bin/vlsm.c:776-964 | every hole number is the netbits of the largest free aligned block of its half iff no node below the root is unallocated and kidless |
| VlsmTree.FreeIsOpen | bin/vlsm.c:776-860 | without such nodes every free block is open |
| VlsmEdit.FindIff | bin/vlsm.c:863-880 | find_net returns the named block that starts at the address iff there is one |
| VlsmEdit.DelFrees | bin/vlsm.c:930-964 | deleting frees exactly the block and keeps the tree well formed, with a walk that skips a missing kid |
| VlsmEdit.GrowDoubles | bin/vlsm.c:882-927 | growing replaces the block by one of twice its size under the same name, over space that held nothing, with a walk that skips a missing kid |
| VlsmEdit.GrowGranted | bin/vlsm.c:886-906 | growth is granted exactly to the left half of a parent without a right kid |
| VlsmEdit.SetNameRenames | bin/vlsm.c:429 | naming changes the name of the one block and nothing else |
| VlsmEdit.PutEntries | bin/vlsm.c:911-925 | replacing a subtree and walking up, past missing kids, changes exactly the allocated blocks of that subtree |
| VlsmEdit.PutShape | bin/vlsm.c:959-963 | the upward walk, past missing kids, restores the hole numbers of all ancestors |
| VlsmEdit.DelFaultsIff | bin/vlsm.c:959-963 | as written, a deletion dereferences a null kid iff a node above the parent has only one kid; else it does what the model does |
| VlsmEdit.GrowFaultsIff | bin/vlsm.c:921-925 | the same condition for growth |
| VlsmTiles.CutDeepFaults | bin/vlsm.c:845-858 | a block cut from a hole more than twice its size hangs below a node with one kid |
| VlsmTiles.FreeAtOnceFaults | bin/vlsm.c:930-964 | freeing such a block right away dereferences a null kid as written |
| VlsmTiles.FirstFreeFaults | bin/vlsm.c:523-563 | this happens with the first net of any session, if it is a sixteenth of the root block or smaller |
| VlsmWritten.CutCanGrow | bin/vlsm.c:886-906 | a block cut from a larger hole is the left half of a parent without a right kid, so growth is granted |
| VlsmWritten.GrowAtOnceFaults | bin/vlsm.c:921-925 | growing a block right after it was cut from a hole more than twice its size dereferences a null kid as written |
| VlsmWritten.FirstGrowFaults | bin/vlsm.c:921-925 | this happens with the first net of any session, if it is a sixteenth of the root block or smaller |
| VlsmWritten.DoAsWritten | bin/vlsm.c:376-521 | a command as written either meets a null kid, exactly when stated, or has the modelled result |
| VlsmWritten.RunAsWritten | bin/vlsm.c:376-563 | a session that the code as written gets through is a modelled one, so all results about sessions hold of it |
| VlsmWritten.AsWrittenIff | bin/vlsm.c:376-563 | the code as written gets through a session iff no command in it meets a node with a missing kid on its walk |
| VlsmTiles.NothingLost | bin/vlsm.c:776-964 | in every state of every session blocks and holes tile the root block, and their sizes add up to 2 to the power 32 - netbits |
| VlsmTiles.TilesTile | bin/vlsm.c:776-964 | the leaves and the missing halves of any well-formed tree lie side by side without gap |
| VlsmRuns.InitGood | bin/vlsm.c:523-563 | init_tree reserves the first and the last address of the root block, without hollow nodes |
| VlsmRuns.CmdKeepsGood | bin/vlsm.c:376-521 | ALLOCATE, GROW and FREE keep the session invariant |
| VlsmRuns.GoodIsSafe | bin/vlsm.c:523-563 | under the invariant user nets are aligned, inside the root block, and clear of both reserved addresses |
| VlsmRuns.Run | bin/vlsm.c:376-563 | every state that any sequence of commands reaches satisfies the invariant |
| VlsmRuns.SessionSafe | bin/vlsm.c:376-563 | over every run the blocks are pairwise disjoint, inside the root block, and never cover the all-zeros or all-ones address |
| VlsmRuns.NothingFreed | bin/vlsm.c:776-927 | runs without FREE have no hollow nodes |
| VlsmRuns.ExactSession | bin/vlsm.c:776-860 | in runs without FREE every hole number is exact; a size is granted iff a free aligned block of it exists, an address iff its whole block is free |
| VlsmRuns.ExactState | bin/vlsm.c:776-860 | the same in every state without hollow nodes |
| VlsmRuns.LeftmostLargest | bin/vlsm.c:822-834 | in those runs an allocation without a request starts at the leftmost of the largest free aligned blocks |
| VlsmRuns.AllocNamedAdds | bin/vlsm.c:376-438 | ALLOCATE adds exactly one named block |
| VlsmRuns.AllocateMeans | bin/vlsm.c:376-438 | ALLOCATE in all its cases: a block as large as the root block or larger is refused; without an address it succeeds iff an aligned block of the size is open, and takes the first address of the leftmost of the largest open blocks; with an address it succeeds iff the aligned block that holds it, taken modulo the root block, is open, and takes that |
| VlsmRuns.LargestIsFirst | bin/vlsm.c:822-834 | where the search without an address ends: no open block is larger, and none of that size lies further left |
| VlsmRuns.NetBits | bin/vlsm.c:394-407 | the loop from hosts to network bits gives the smallest block with more addresses than the hosts and two more need; a power of two is never filled |
| VlsmRuns.FreeRemoves | bin/vlsm.c:490-521 | FREE removes exactly the named net that starts at the address, and changes nothing if there is none |
| VlsmRuns.GrowReplaces | bin/vlsm.c:441-487 | GROW replaces the named net at the address by one of twice its size, over space that was free, iff it is a left half whose right half has no node, and else changes nothing |
| VlsmRuns.GrowMeans | bin/vlsm.c:441-487 | the same in terms of the test that the program makes |
| VlsmRuns.ListingAscending | bin/vlsm.c:755-770 | the file is written in strictly ascending address order |
| VlsmRuns.ListingNamed | bin/vlsm.c:757-769 | it lists exactly the named blocks |
| VlsmRuns.ReplayLine | bin/vlsm.c:251-263 | a line whose block is free is loaded at its own address and size |
| VlsmRuns.ReplayAddsAll | bin/vlsm.c:251-263 | lines that fit are all loaded, and nothing else is |
| VlsmRuns.ReplayAdds | bin/vlsm.c:251-263 | any lines that are loaded to the end have all been added, each in the aligned block that its address means, and nothing else has |
| VlsmRuns.ReplayFails | bin/vlsm.c:251-263 | LOAD fails iff it comes to a line whose block is too large or not open |
| VlsmRuns.SavedLoads | bin/vlsm.c:213-269 | from every state that keeps the session invariant, saving and loading gives back the same blocks with exact hole numbers |
| VlsmRuns.SaveThenLoad | bin/vlsm.c:213-269 | saving and loading never fails and rebuilds the same blocks under the same names, from any state of any run, with exact hole numbers |
| VlsmHeap.Vlsm.AllocLeftKid | bin/vlsm.c:701-722 | the new left kid on the heap is the modelled one, linked both ways |
| VlsmHeap.Vlsm.AllocRightKid | bin/vlsm.c:728-750 | likewise on the right, with the address bit set |
| VlsmHeap.Vlsm.KidFor | bin/vlsm.c:845-856 | the kid to descend into, made if it is missing |
| VlsmHeap.Vlsm.TakeHole | bin/vlsm.c:849-857 | after the search below a kid, the hole number of its half becomes the better of the two of that kid |
| VlsmHeap.Vlsm.AllocNet | bin/vlsm.c:776-860 | alloc_net on heap nodes computes the modelled search: same tree, same node, same refusal |
| VlsmHeap.Vlsm.AllocInHalf | bin/vlsm.c:845-858 | the descent and the refreshed hole number of that half |
| VlsmHeap.Vlsm.RefreshHoles | bin/vlsm.c:961-962 | both hole numbers of a node from its kids; a half without a kid keeps its number |
| VlsmHeap.Vlsm.WalkUp | bin/vlsm.c:959-963 | the walk to the root brings every ancestor up to date |
| VlsmHeap.Vlsm.UnlinkKid | bin/vlsm.c:943-955 | cutting off a kid leaves a hole of its size |
| VlsmHeap.Vlsm.DelNet | bin/vlsm.c:930-964 | del_net on heap nodes computes the modelled deletion and keeps all links |
| VlsmHeap.Vlsm.GrowNet | bin/vlsm.c:882-927 | grow_net on heap nodes: granted exactly when modelled, and then the modelled tree |
| VlsmHeap.Vlsm.FindNet | bin/vlsm.c:863-880 | find_net returns the node that stands for the modelled result |
| VlsmHeap.Vlsm.PrintTree | bin/vlsm.c:755-770 | print_tree writes the modelled listing |
| VlsmHeap.Vlsm.NameNet | bin/vlsm.c:429 | the caller's store of the name |
| VlsmHeap.Vlsm.InitTree | bin/vlsm.c:523-563 | init_tree refuses the all-ones address and anything but 8 to 28 network bits, else builds the modelled tree, with the first and the last address reserved |
| VlsmHeap.Vlsm.CmdAlloc | bin/vlsm.c:409-430 | the command succeeds exactly when an open aligned block of the size, or the open block at the address asked for, exists; it then adds exactly that named block, without an address the first of the leftmost largest open space; a refusal changes nothing |
| VlsmHeap.Vlsm.CmdGrow | bin/vlsm.c:464-474 | GROW on the heap is the modelled command: it succeeds iff the named net at the address is a left half whose right half has no node, and then replaces it by one of twice its size |
| VlsmHeap.Vlsm.CmdFree | bin/vlsm.c:510-516 | FREE on the heap removes exactly the named net at the address, and fails iff there is none |
| VlsmHeap.Vlsm.CmdLoad | bin/vlsm.c:251-263 | LOAD replays every line as a specific request, succeeds iff no line on the way is refused, and has then added all of them |
| Crc.MkCrctbl | src/crc.c:48-73 | whatever the array held before, entry i ends as the remainder of i times X^32: so nothing is used before it is written |
| Crc.FillTable | src/crc.c:54-72 | the loop itself, entry by entry |
| Crc.TableDoubles | src/crc.c:56-72 | entries 2i and 2i + 1 follow from entry i by one shift |
| Crc.GeneratorBytes | src/crc.c:33 | the CRC of the byte 1 is the generator 0x864CFB, that of 2 is twice that, and a zero byte after the 1 shifts it by eight places |
| Crc.LeadingZero | src/crc.c:78-85 | a zero byte at the beginning changes neither message nor CRC |
| Crc.EntriesLinear | src/crc.c:48-73 | the table is linear under exclusive or |
| Crc.RemDivides | src/crc.c:33 | the remainder used throughout is that of polynomial division: quotient times generator plus remainder is the dividend |
| Crc.RemUnique | src/crc.c:33 | and it is the only one of degree below 32 |
| Crc.RemXor | src/crc.c:83 | the remainder of a sum is the sum of the remainders |
| Crc.Crc.Init | src/crc.c:87-98 | crc_init fills the table once |
| Crc.Crc.Bytes | src/crc.c:78-85 | crc_bytes returns the remainder of the message times X^32, or 0 before crc_init |
| Crc.SerialIsCrc | src/crc.c:78-85 | the byte-wise loop equals the bit-serial shift register on every buffer |
| Crc.MessageXor | src/crc.c:83 | a message as a polynomial is its beginning, shifted, plus its end |
| Crc.ShiftsNonzero | src/crc.c:56-72 | shifting a nonzero register never gives 0, as the generator has a constant term |
| Crc.MiddleDetected | src/crc.c:78-85 | two messages that differ in a middle part of at most four bytes have different CRCs |
| Crc.BurstDetected | src/crc.c:78-85 | messages of one length that differ only within four consecutive bytes never have the same CRC |
| Crc.CheckedMessage | src/crc.c:78-85 | a message followed by four bytes has CRC 0 iff they are its own CRC, high byte first |
| GeoTrie.ReadRecord | bin/geoip.c:928-941 | disk, full cache and index cache give the same bytes of the file, which hold the two pointers of the record |
| GeoTrie.DecodePointer | bin/geoip.c:943-986 | the unrolled three bytes and the general loop both give the little-endian value, written out byte by byte |
| GeoTrie.GeoIP.Seek | bin/geoip.c:918-998 | the walk returns the number at the end of the path of the address, and stores its length as the netmask, or returns 0 without a new netmask on a corrupt file; and what the first record decides, for the lower and the upper half of the addresses |
| GeoTrie.HalfBlocks | bin/geoip.c:926-997 | the record of an aligned block: the lower half of the addresses goes by its first pointer and the upper half by the second, by position in the file; a pointer that is no record number is what the half finds |
| GeoTrie.FirstRecord | bin/geoip.c:926-997 | the same for the first record and the whole address space |
| GeoTrie.PathOf | bin/geoip.c:926-997 | every address has a path of pointers through the file, each in the first or second half of its record as the address is in the lower or upper half of the block |
| GeoTrie.PathUnique | bin/geoip.c:926-997 | and only one |
| GeoTrie.LookupIffPath | bin/geoip.c:926-997 | a lookup finds what stands at the end of that path, with its length as the netmask, and nothing else |
| GeoTrie.SamePathIff | bin/geoip.c:988-992 | two addresses take the same path iff they agree in as many leading bits as the path is long |
| GeoTrie.LeastNetmask | bin/geoip.c:988-992 | the netmask is the least number of leading bits such that all addresses that share them take the same path |
| GeoTrie.ReachesFound | bin/geoip.c:926-997 | in a well-formed file every lookup ends with a value |
| GeoTrie.FoundRange | bin/geoip.c:988-992 | values are at least databaseSegments[0] and netmasks are between 1 and the width |
| GeoTrie.SamePrefix | bin/geoip.c:988-992 | a lookup that ends with netmask m ends with the same value and netmask for every address with the same top m bits |
| GeoTrie.WholeBlock | bin/geoip.c:918-998 | lookups partition the address space into such prefix blocks |
| GeoTrie.BlockAllSame | bin/geoip.c:1971-1973 | the block computed from the netmask holds the address and is of one value |
| GeoTrie.SeekLeft | bin/geoip.c:1975-1981 | the left loop ends at address 0 or next to another value, and everything passed has the value sought |
| GeoTrie.SeekRight | bin/geoip.c:1984-1991 | the right loop likewise, up to the last address |
| GeoTrie.RangeOf | bin/geoip.c:1968-1994 | the result is the maximal interval of the value around the address, and the stored netmask is that of the original lookup |
| GeoTrie.RangeUnique | bin/geoip.c:1951-1997 | there is one maximal interval; it contains every interval of that value around the address |
| GeoTrie.ChkBitIsBit | bin/geoip.h:50 | the IPv6 bit test reads the address as a big-endian number |
| GeoTrie.NumberFirst | bin/geoip.h:50 | the first byte of an address is the most significant |
| GeoTrie.PrepareTeredo | bin/geoip.c:358-375 | the in-place rewriting of a Teredo address, byte by byte; any other address stays as it is |
| GeoTrie.TeredoNumber | bin/geoip.c:358-375 | a Teredo address stands for the number of its hidden IPv4 address |
| GeoTrie.SeekV6 | bin/geoip.c:828-906 | the IPv6 walk ends where the path of the big-endian number ends, and what the first record decides, by the first bit of the first byte |
| GeoTrie.SeekRecordV6 | bin/geoip.c:815-907 | the whole function: with the flag the rewritten address is looked up, else the address itself; the caller's address stays as it was |
| GeoTrie.TeredoLookup | bin/geoip.c:815-907 | with the flag, a Teredo address is looked up as its hidden IPv4 address, whatever the rest of it is |
| GeoText.NumToAddr | bin/geoip.c:1920-1949 | the text is the four octets in decimal with dots, the leading one first |
| GeoText.AddrToNum | bin/geoip.c:1000-1034 | the loop computes the parse of the text |
| GeoText.RoundTrip | bin/geoip.c:1000-1034 | parsing the printed text gives back every 32-bit address |
| GeoText.FitsBuffer | bin/geoip.c:1927 | the text with its terminator fits 16 bytes |
| GeoText.ParseFour | bin/geoip.c:1000-1034 | what the parser makes of any four digit fields: their values modulo 2 to the power 32, if each is at most 255 |
| GeoText.ParseRejects | bin/geoip.c:1000-1034 | a text with another character, or without exactly three dots, reads as 0 |
| GeoText.WrappedOctet | bin/geoip.c:1020-1027 | a field above 255 can be accepted: 4294967297.0.0.1 reads as 1.0.0.1 |
| GeoText.RangeByIp | bin/geoip.c:1951-1997 | the two texts are the ends of the maximal interval, and parse back to them |
| BTreeSpec.InsertOrdered | src/btree.c:25-87 | insertion keeps the search order and replaces exactly an equal entry |
| BTreeSpec.FindIff | src/btree.c:92-108 | find succeeds iff an equal entry is present, and returns it |
| BTreeSpec.DeleteInOrder | src/btree.c:110-174 | deletion takes exactly one entry out of the order, in all three cases |
| BTreeSpec.DeleteFound | src/btree.c:92-174 | finding and deleting removes exactly the equal entry and keeps the search order |
| BTreeSpec.HangLeftInOrder | src/btree.c:138-145 | hanging the left subtree under the leftmost node of the right one keeps the order |
| BTreeSpec.PathUnique | src/btree.c:92-108 | an entry stands at one place of the tree |
| BTreeSpec.RunRefines | src/btree.c:25-174 | any sequence of insertions and removals is a search tree that holds what a finite map would |
| BTreeHeap.BinTree.Insert | src/btree.c:25-87 | tree_insert on heap nodes computes the modelled insertion and keeps parent and kid links |
| BTreeHeap.BinTree.Load | src/btree.c:34-83 | the store at the node found or in a new leaf |
| BTreeHeap.BinTree.Find | src/btree.c:92-108 | tree_find returns the node of the modelled search |
| BTreeHeap.BinTree.Delete | src/btree.c:110-174 | tree_delete removes exactly the node and the tree becomes the modelled deletion at its place |
| BTreeHeap.BinTree.TakeOut | src/btree.c:126-146 | what remains below the node, in one piece, for no, one and two kids |
| BTreeHeap.BinTree.HangLeftKid | src/btree.c:136-146 | the relinking with two kids |
| BTreeHeap.BinTree.Leftmost | src/btree.c:138-140 | the loop to the leftmost node |
| BTreeHeap.BinTree.DeleteRoot | src/btree.c:150-155 | the remains become the tree |
| BTreeHeap.BinTree.DeleteBelow | src/btree.c:157-170 | the remains take the node's place under its parent |
| BTreeHeap.BinTree.Remove | src/btree.c:296-299 | find and delete, as one removal by key |
| BTreeHeap.BinTree.Session | src/btree.c:25-174 | any sequence of operations on heap nodes ends in the tree of the specified run |
| ListenQueue.Listener.constructor | src/listen.c:88-95 | a listening socket with a backlog from 1 to SOMAXCONN - 1 and an empty queue |
| ListenQueue.Listener.SockAppend | src/accept.c:427-523 | a SYN goes to the first vacant slot as a copy of the block; nothing changes when the queue is full, the socket does not listen, or memory is short |
| ListenQueue.Listener.VacantSlot | src/accept.c:454-462 | the first vacant slot below the backlog |
| ListenQueue.Listener.Enqueue | src/accept.c:472-522 | the copy is queued, recorded and listed first; the original forgets its peer, gets a new sequence number and listens on |
| ListenQueue.Listener.Unthread | src/pctcp.c:602-635 | the block is taken off the list of all blocks, and nothing else is |
| ListenQueue.Listener.TcpTick | src/accept.c:157 | whatever the engine does, no queued block leaves its slot |
| ListenQueue.Listener.Happen | src/accept.c:427-523 | a SYN that comes in with a vacant slot is queued in the first one, with its peer and time |
| ListenQueue.Listener.ListenFree | src/accept.c:404-412 | a dead block is taken off the list, freed, and its slot vacated |
| ListenQueue.Listener.OneTurn | src/accept.c:155-214 | one turn: the slot is read before the tick and judged after it; a dead block is reaped, and its slot vacated, without the non-blocking check |
| ListenQueue.Listener.AcceptLoop | src/accept.c:153-216 | the slots are polled in turn; the loop ends exactly on a connected block, a signal, the last slot if non-blocking, or the timeout |
| ListenQueue.LastPass | src/accept.c:153 | the last polls went over every slot up to the last one |
| ListenQueue.WouldBlockAfterFullPass | src/accept.c:200-208 | EWOULDBLOCK comes only on a non-blocking socket after a full pass that found no slot connected |
| ListenQueue.FoundIsFirst | src/accept.c:183-197 | the block accepted is established, and every connected-looking block before it was dead and reaped |
| ListenQueue.EndOfLoop | src/accept.c:153-216 | what each end of the loop tells about its last turn: a connected block, a signal, the last slot of a non-blocking socket, or an expired timeout; and no turn before it could have ended the loop |
| ListenQueue.ClosedBlock | src/accept.c:183-197 | a closed block that is polled is reaped iff its ip_type is 0; else it is neither reaped nor accepted |
| ListenQueue.ClosedSlot | src/accept.c:172-198 | after a full pass the slot of a closed block is vacant iff its ip_type is 0 |
| ListenQueue.Listener.DupBind | src/accept.c:307-337 | the block moves from its slot to the new socket |
| ListenQueue.Listener.TakeOver | src/accept.c:222-239 | the socket is connected and not listening; without memory for the addresses it is deleted and the block aborted |
| ListenQueue.Listener.Accept | src/accept.c:67-299 | the whole call: which errno each failed check gives, in their order, and what each end of the loop makes of it; on success one queued established block is handed to one new socket |
| ListenQueue.Listener.DelFd | src/socket.c:708-718 | the block of a deleted socket is aborted and freed |
| ListenQueue.Listener.CloseStream | src/close.c:132-149 | closing aborts everything queued and nothing that was accepted |
| ListenQueue.Listener.AbortQueue | src/close.c:137-148 | the loop over the slots aborts and records every queued block |
| ListenQueue.Listener.CloseSock | src/socket.c:708-718 | closing an accepted socket frees its block and records it |
| ListenQueue.Balance | src/accept.c:67-523 | over any record of appends, hand-outs, reaps, aborts and closes that could be done: what was appended and not handed out, reaped or aborted is queued; what was handed out and not closed is in a socket |
| ListenQueue.Listener.Conservation | src/accept.c:67-523 | the number of appends is the number of occupied slots plus the hand-outs, reaps and aborts; the hand-outs are the open sockets plus the closed ones |
| ListenQueue.Listener.QueueBound | src/accept.c:456-468 | the queue holds each block once and at most backlog, below SOMAXCONN, blocks |
| ListenQueue.Listener.SocketsOwn | src/accept.c:327-335 | accepted blocks and sockets correspond one to one |
| ListenQueue.Listener.Session | src/accept.c:67-523 | over every interleaving what was appended is accounted for, as many blocks are handed out as accept records and none twice, and freed blocks stay freed |
| ListenQueue.Listener.DoOp | src/accept.c:67-523 | every operation moves blocks only from slots to sockets or to the end, and from sockets to the end |
| Checksum.InChecksum | src/chksum.c:24-42 | the loop computes the one's-complement sum of the words |
| Checksum.SumWords | src/chksum.c:30-36 | the first loop is the plain sum, with an odd last byte as a low byte |
| Checksum.Fold | src/chksum.c:38-39 | the second loop keeps the sum modulo 65535 and is 0 only for 0 |
| Checksum.OnesSumMeans | src/chksum.c:24-42 | the result is the plain sum modulo 65535, and 0 only for all-zero data |
| Checksum.TotalFits | src/chksum.c:26-36 | for at most 65536 bytes the sum fits in 31 bits |
| Checksum.SumOfParts | src/chksum.c:24-42 | parts at even offsets may be summed apart |
| Checksum.SumOfSwapped | src/chksum.c:24-42 | swapping the bytes of every word swaps the bytes of the sum |
| Checksum.Ip6Checksum | src/chksum.c:48-75 | the result is the one nonzero word that makes the covered sum 0 modulo 65535 |
| Checksum.StampUnique | src/chksum.c:70-74 | there is only one such word |
| Checksum.Ip6Check | src/chksum.c:80-114 | a packet is accepted iff pseudo-header and payload sum to 0 modulo 65535 |
| Checksum.CoveredMeans | src/chksum.c:54-62 | what is covered: the words of both addresses, the length high byte first, the protocol as a high byte, and the payload |
| Checksum.WordsAreBytes | src/chksum.c:30-36 | the sum of the words is that of the bytes, those at odd places 256 times |
| Checksum.StampedVerifies | src/chksum.c:48-75 | a packet stamped while its field was zero is accepted |
| Checksum.ChangedWordSeen | src/chksum.c:80-114 | of the changes to one word of an accepted packet exactly 0 against 0xFFFF goes unseen |
| Checksum.ChangedAddressSeen | src/chksum.c:55-56 | the same for every word of either address |
| HostCache.RunGood | src/gethost.c:307-420 | in every run each entry comes from a hosts file or is exactly what one logged reply said, stored when it came, with its life clamped |
| HostCache.DoGood | src/gethost.c:307-420 | one operation keeps this |
| HostCache.AnsweredWithoutAsking | src/gethost.c:330-388 | a name answered without the resolver is a literal, the own name, a hosts-file entry, or a reply about that name that is still fresh, with its data unchanged |
| HostCache.AskedIffStale | src/gethost.c:342-398 | a name with an entry is asked for again iff its first entry is a reply that has outlived its clamped life |
| HostCache.NotAskedWhileFresh | src/gethost.c:342-366 | a name with a fresh first entry is never asked for and changes nothing |
| HostCache.FailureIsRemembered | src/gethost.c:415-419 | after an uninterrupted failure every spelling of the name fails without a question until the failure expires, over any commands without news about it; also when the list is turned round, if no other entry has the name |
| HostCache.DeniedStep | src/gethost.c:307-420 | no single operation without news displaces the stored failure |
| HostCache.ZeroLifeStays | src/gethost.c:732 | a stored reply whose clamped life is 0, positive or negative, new or in place of an expired one, answers every later lookup of the name |
| HostCache.SameFirst | src/gethost.c:342-366 | however a name is spelt, the same entry is the first one for it |
| HostCache.SameIff | src/gethost.c:346 | names are compared without regard to the case of ASCII letters, and to nothing else |
| HostCache.StoredFirst | src/gethost.c:406-418 | what a lookup stores is the first entry for its name |
| HostCache.AskedName | src/gethost.c:387-420 | what an asked lookup by name returns and keeps, from the reply alone: the canonical name, or else the name asked for, and the address before its alternates up to the first impossible one; a failure otherwise |
| HostCache.NameTwice | src/gethost.c:342-420 | after a reply, the next lookup in any spelling asks again iff the clamped life was not 0 and has passed, and else repeats the answer |
| HostCache.AskedIffUnknown | src/gethost.c:330-388 | a name in no entry is asked for iff it is neither a literal address nor one of the own names, which are answered at once; and never from inside the resolver |
| HostCache.OwnAddress | src/gethost.c:541-562 | which addresses are answered as the own or as a broadcast, and how |
| HostCache.AddrWithoutAsking | src/gethost.c:564-592 | an address answered without the resolver otherwise: a hosts-file entry, or a logged reply that holds the address and is still fresh |
| HostCache.AddrAskedIffStale | src/gethost.c:566-592 | an address is asked for iff it has no entry, or its first entry is a reply that has outlived its clamped life; for getnameinfo always |
| HostCache.AskedAddr | src/gethost.c:594-621 | what an asked reverse lookup returns and keeps, from the reply alone: the canonical name, or else the name found, and the address asked for |
| HostCache.AddrTwice | src/gethost.c:573-621 | after a reply, the next lookup of the address asks again iff it named a host with a clamped life that was not 0 and has passed |
| HostCache.NamelessIsRemembered | src/gethost.c:616-621 | after an uninterrupted failure every later lookup of the address fails without a question, at any time, over any commands that do not bring the address |
| HostCache.HasAddrIff | src/gethost.c:577-579 | an entry has an address iff it stands before the first 255.255.255.255 |
| HostCache.ReadHostsAt | src/gethost.c:134-159 | where each line of a hosts file comes to stand, and as what |
| HostCache.NamedByReply | src/gethost.c:744-750 | an entry answers to the name asked for and to its canonical name |
| HostCache.ReversedAlike | src/gethost.c:778-807 | turning the list round changes no answer for a name with at most one entry |
| HostCache.ReversedTwice | src/gethost.c:778-807 | turning it round twice changes nothing |
| HostCacheHeap.Hosts.GetHostByName | src/gethost.c:307-420 | the linked-list code computes the modelled lookup: list and answer |
| HostCacheHeap.Hosts.GetHostByAddr | src/gethost.c:513-622 | the linked-list code computes the modelled reverse lookup: list and answer |
| HostCacheHeap.Hosts.FindName | src/gethost.c:342-366 | the first node with the name or alias |
| HostCacheHeap.Hosts.HasName | src/gethost.c:346-365 | the comparison with name and aliases, without regard to case |
| HostCacheHeap.Hosts.FindAddr | src/gethost.c:573-592 | the first node with the address before an INADDR_NONE |
| HostCacheHeap.Hosts.AddHostent | src/gethost.c:684-771 | an expired node is refilled in its place, or a new one is put first |
| HostCacheHeap.Hosts.AddAlternates | src/gethost.c:737-743 | the alternates up to the first impossible address |
| HostCacheHeap.Hosts.ReadHostsFile | src/gethost.c:134-159 | each line becomes a first node that never expires, the last line before the others, and the old nodes follow |
| HostCacheHeap.Hosts.ReverseHostsList | src/gethost.c:778-807 | the list is turned round in place, node by node, only if something in it can expire |
| HostCacheHeap.Hosts.Collect | src/gethost.c:783-797 | the first two loops |
| HostCacheHeap.Hosts.Relink | src/gethost.c:799-804 | the relinking loop |
| DnsName.Packdom | bin/host.c:110-149 | the labels of the name, then of the default domain after a name without a dot, in the wire form; -1 exactly when one has more than 63 bytes |
| DnsName.CopyLabel | bin/host.c:122-124 | the inner loop up to a dot |
| DnsName.Unpackdom | bin/host.c:159-191 | the text written is the modelled one with its last dot replaced by a zero, which is the expansion of the name when no pointer leads to the root; the bytes to skip end at the first pointer; the zero goes before the buffer, over the byte there, iff the name is the root |
| DnsName.Compression | bin/host.c:166-181 | labels followed by a pointer to an earlier name, with its 14 bits of offset, expand to those labels and that name, take up their own bytes and two more, and are written as the whole when no pointer leads to the root |
| DnsName.ReservedLength | bin/host.c:177-178 | a length byte of 64 to 191 begins no name of the standard, but the program takes it modulo 64 |
| DnsName.UnpackLabel | bin/host.c:166-181 | one turn of the loop |
| DnsName.Follow | bin/host.c:168-175 | the loop over pointers |
| DnsName.WrittenIffRootFree | bin/host.c:159-191 | for names that section 4.1.4 of RFC 1035 expands, with pointers to earlier names, the program writes the expansion iff no pointer leads to the root |
| DnsName.WrittenOrMore | bin/host.c:164-175 | else it writes more than the expansion or runs off |
| DnsName.RootPointerExample | bin/host.c:164-182 | a concrete message where it writes a..b for a |
| DnsName.PackThenUnpack | bin/host.c:110-191 | Unpackdom undoes Packdom anywhere in a message, with the same byte count |
| DnsName.LabelsOfDotted | bin/host.c:119-146 | splitting undoes joining |
| DnsName.DottedOfLabels | bin/host.c:119-146 | joining undoes splitting, but for a last dot |
| DnsName.ExpandWire | bin/host.c:159-191 | packed labels expand to themselves |
| DnsName.WireLabel | bin/host.c:119-148 | where each label and its length byte stand in the packed form, and that it is one byte longer than the text with a dot after each label |
| Ip2Location.GetIpv4Record | bin/IP2Loc.c:687-731 | if row k covers the address, the record is base + k * column * 4, without an index and with one whose window covers the first 16 bits, and none if the window leaves it out; 255.255.255.255 counts as the address before it; a row past the end row is read iff the window is just the end row; high never underflows |
| Ip2Location.HasRow4 | bin/IP2Loc.c:701-731 | there is such a row for every address |
| Ip2Location.Read32Bytes | bin/IP2Loc.c:1088-1157 | where a byte and a number of four bytes stand in the file, low byte first; what is not in it reads as 0 |
| Ip2Location.BytesOfTable4 | bin/IP2Loc.c:707-718 | which four bytes of the file hold the first address of a row, and which eight the window for the first 16 bits of an address |
| Ip2Location.Search4 | bin/IP2Loc.c:715-730 | the binary search |
| Ip2Location.GetIpv6Record | bin/IP2Loc.c:639-684 | if row k covers the address, the record is base + k * (column * 4 + 12) + 12, if the window that the first two bytes select has row k, and else none; a row past the end row is read iff the window ends with the end row and the address is at or after the end, or the window is just the end row |
| Ip2Location.BytesOfTable6 | bin/IP2Loc.c:671-672 | which sixteen bytes of the file hold the first address of a row |
| Ip2Location.Search6 | bin/IP2Loc.c:667-683 | its binary search |
| Ip2Location.RowUnique | bin/IP2Loc.c:720 | only one row covers an address |
| Ip2Location.WindowCoversIff | bin/IP2Loc.c:707-713 | a window covers a block of addresses iff it holds the row of each of them that is in the table |
| Ip2Location.WindowHasRow | bin/IP2Loc.c:707-713 | a window that covers a block holds the row of every address of it |
| Ip2Location.IndexedAsFull4 | bin/IP2Loc.c:687-731 | when the window covers the first 16 bits of the address, the indexed search returns what the search without an index returns |
| Ip2Location.IndexedAsFull6 | bin/IP2Loc.c:639-684 | the same for IPv6, for addresses below the end of the table |
| Ip2Location.LastAddressPastEnd | bin/IP2Loc.c:639-684 | without an index, looking up the all-ones address reads past the end row of every table |
| Ip2Location.Ipv6Compare | bin/IP2Loc.c:198-212 | the comparison is that of 128-bit numbers |
| Ip2Location.ReadIPv6Address | bin/IP2Loc.c:1070-1080 | the address is the little-endian number in the file, its bytes in the opposite order |

## Left out

- The text format of the allocator's file, the parsing of commands and addresses, and its messages: a file is a list of names, addresses and sizes.
- VlsmHeap.Vlsm.WalkUp: skips a missing kid, which the code dereferences; VlsmWritten.AsWrittenIff says when that makes a difference.
- VlsmHeap.Vlsm.RefreshHoles: skips a missing kid, as VlsmHeap.Vlsm.WalkUp does.
- VlsmHeap.Vlsm.DelNet: walks up with VlsmHeap.Vlsm.WalkUp; where the code as written gets through, VlsmEdit.DelFaultsIff gives the same tree.
- VlsmHeap.Vlsm.GrowNet: walks up with VlsmHeap.Vlsm.WalkUp; where the code as written gets through, VlsmEdit.GrowFaultsIff gives the same tree.
- VlsmHeap.Vlsm.CmdGrow: runs VlsmHeap.Vlsm.GrowNet.
- VlsmHeap.Vlsm.CmdFree: runs VlsmHeap.Vlsm.DelNet.
- VlsmRuns.Run: and the results about it (SessionSafe, NothingFreed, ExactSession, LeftmostLargest, SaveThenLoad, NothingLost) use that walk; by VlsmWritten.RunAsWritten they hold of every session that the code as written gets through.
- Allocation failure, except in the listen queue, where it decides who owns a block.
- `tree_free` and `tree_insert`'s failure paths; entries of the search tree are values, not copied bytes.
- ListenQueue.Listener.AcceptLoop: runs over a finite number of ticks; what happens when a blocking call waits for ever is not modelled.
- A second `listen` call on the same socket, which would change the backlog under a filled queue.
- The TCP engine, select, sending of RST segments, timers and the receive buffers of connection blocks.
- `close_stream` on sockets that do not listen: lingering, flushing and delayed deletion.
- The IPv6 host cache, the near copy of the one modelled here; the static buffers of `fill_hostent`; the parsing of hosts files.
- HostCache.ByName: takes `inet_aton`, the own names and the resolver as given; `netdb_init` is taken to succeed.
- `_check_mtime`, opening and reloading GeoIP files, and the segment tables; IP2Location record decoding, shared memory and address parsing.
- DnsName.Unpackdom: pointers that do not go back, on which the program may run for ever, are outside its precondition.
- The client programs, packet drivers, ARP, DHCP, fragment reassembly and debug output.
