# A verified model of libmaxminddb

libmaxminddb reads the MaxMind DB format: a binary trie over the bits of IP
addresses, a data section of self-describing values that may point back at each
other, and metadata at the end of the file. This project models the library's
readers in Dafny and proves what they compute, on every byte sequence and not only
on well-formed files.

The C functions that update structs or loop over cursors are methods on classes
(`EntryData`, `ListNode`, `Pool`, `Mmdb`, `Stream`) with the C code's own branches,
checks and `uint32_t` arithmetic. Each of them is proved against a function, and the
functions are proved against references that do not read like the code:

* `Wire` writes fields the way the "Output Data Section" of the MaxMind DB File
  Format Specification v2.0 describes them. `Decode` (decode_one) accepts exactly
  what it writes.
* `ValueTree.Denotes` says which tree the bytes at an offset stand for, in terms of
  `Wire` alone; `Parses` is the same relation in terms of `Decode`, and
  `DenotesIsParses` proves that they are equal. The flattener lists exactly the
  preorder of that tree, the skipper ends where it ends, path lookup navigates it,
  and dumping the list prints it.
* `SearchTree.Leads` follows address bits through nodes written by
  `Records.EncodeNode`, and `EncodeRecord` writes what a record stands for. A lookup
  answers exactly what the bits lead to (`LookupAnswersTheBits`).
* `Pool` is an append-only sequence of nodes, whatever its blocks are.
* `WrittenMaps` writes maps with the encoder of `Wire`. Path lookup and read_metadata
  read back what was written.

Files: `Base` (bytes, widths, statuses), `Wire`, `Decoding`, `WireProofs`,
`ValueTree`, `Flattening`, `Skipping`, `PathLookup`, `DataPool`, `EntryList` (the
flattener on the pool), `CStrings`, `Dumping`, `Records`, `SearchTree`, `Metadata` (the
marker), `MetadataReader` (its values), `MetadataTrees`, `Database`, `WrittenMaps`,
`LoopingDatabase`.

Conventions. A byte is an integer from 0 to 255; shifts and masks by powers of two
are written with `/` and `%`. A C pointer into the file is an offset. `calloc` is a
function `memory` that says which request succeeds, so the results hold for every
pattern of failures; for copies of strings, it depends on what is copied.
The result of `strtol` comes with the path element. A method that decodes asks
that decode_one does not read past the end of its section (`OverReads`, `Readable`).
Sections that are empty or have at least three bytes never make it do so, and
MMDB_open ensures that of the data section.

Where the code does not do what one would expect, the code is modelled and the
condition is exact:

* skip_map_or_array decodes only the head of a map key. It ends at the end of a
  well-formed value if and only if no map stored in place has a key that is an
  in-place container with children, and the nesting in place is within the limit
  (`SkipIsExactIff`); it arrives at a given element or key if and only if that holds
  of everything before (`ElementsLandIff`, `PairsLandIff`). So a path lookup goes
  through the offsets of the tree's own fields if and only if it holds of the values
  that this path steps over (`LookupIsOnTrackIff`), and then it finds what the tree
  has there. `ContainerKeyMisleadsSkip` and `ContainerKeyHidesLaterKeys` give values
  where it matters. The format allows only string keys.
* A walk that uses up all address bits on a node is reported as a found entry, with
  an offset that has wrapped around. The offset is inside the data section and names
  the record if and only if the address bits do not run out on a node
  (`FoundOffset`); `LoopingDatabase` gives a file, byte for byte, that can be opened
  and in which every lookup ends like that.
* MMDB_read_node fails on a node when either of its records is invalid, and a lookup
  only looks at the records on its way. So reading an address node by node succeeds
  if and only if the lookup does not run out of bits and every node on its way can be
  read (`ReadNodeAgreesWithLookup`).
* The bound checks of the size switch are wrong exactly in sections shorter than the
  size bytes, which only metadata can be: there they pass, and decode_one reads past
  the end (`OverReadsIffCheckIsWrong`). `OneByteSection` says for which metadata of
  one byte that happens; `MetadataOverRead` is the byte 255.

## Model

| member | source | states |
|---|---|---|
| WireProofs.DecodeIsExact | src/maxminddb.c:1441-1651 | decode_one succeeds at an offset exactly when one of the legal encodings of a field is stored there, wholly inside the section, and then gives that field and the offset after it |
| WireProofs.CodesArePrefixFree | src/maxminddb.c:1469-1546 | the bytes at an offset begin with at most one encoding, so size and pointer ranges neither overlap nor leave gaps |
| WireProofs.DecodeOfEncodePointer | src/maxminddb.c:1655-1676 | get_ptr_from returns the target that was encoded, for each of the four pointer widths |
| WireProofs.EncodeOfDecodePointer | src/maxminddb.c:1655-1676 | every pointer that can be read has a target in the range of its width, and encoding that target gives the bytes back |
| WireProofs.PayloadRead | src/maxminddb.c:1574-1646 | every payload is read as the field it was written for: numbers in any number of bytes that holds them, negative ones in two's complement, strings as they are |
| WireProofs.PayloadWritten | src/maxminddb.c:1574-1646 | a payload that is accepted is the one its field is written with |
| WireProofs.StringBytes | src/maxminddb.c:1631-1633 | control bytes 64 to 92 start a string of that many bytes |
| WireProofs.StringBytes29 | src/maxminddb.c:1511-1520 | control byte 93 and one more start a string of 29 bytes and more |
| WireProofs.StringBytes285 | src/maxminddb.c:1521-1531 | control byte 94 and two more start a string of 285 bytes and more |
| WireProofs.StringBytes65821 | src/maxminddb.c:1532-1542 | control byte 95 and three more start a string of 65821 bytes and more |
| WireProofs.DoubleBytes | src/maxminddb.c:1623-1630 | control byte 104 starts a double of 8 bytes, and no other size of that type is accepted |
| WireProofs.BytesBytes | src/maxminddb.c:1643-1646 | control bytes 128 to 156 start that many plain bytes |
| WireProofs.Uint16Bytes | src/maxminddb.c:1574-1580 | control bytes 160 to 162 start a 16-bit number |
| WireProofs.Uint32Bytes | src/maxminddb.c:1581-1587 | control bytes 192 to 196 start a 32-bit number |
| WireProofs.Int32Bytes | src/maxminddb.c:1588-1594 | a size up to 4 and then 1 start a signed number |
| WireProofs.SignedRange | src/maxminddb.c:1588-1594 | which is in the range of 32 bits and has the bits of the unsigned one |
| WireProofs.Uint64Bytes | src/maxminddb.c:1595-1601 | a size up to 8 and then 2 start a 64-bit number |
| WireProofs.Uint128Bytes | src/maxminddb.c:1602-1614 | a size up to 16 and then 3 start a 128-bit number |
| WireProofs.FloatBytes | src/maxminddb.c:1615-1622 | 4 and then 8 start a float of 4 bytes, and no other size of that type is accepted |
| WireProofs.OtherBytes | src/maxminddb.c:1648-1650 | the types that no value has are stepped over by their size |
| WireProofs.BytesWithoutPayload | src/maxminddb.c:1550-1562 | maps, arrays and booleans carry their count or value in the size, and nothing follows it |
| WireProofs.PointerBytes1 | src/maxminddb.c:1655-1676 | control bytes 32 to 39 and one more are a pointer to 0 to 2047 |
| WireProofs.PointerBytes2 | src/maxminddb.c:1655-1676 | control bytes 40 to 47 and two more are a pointer from 2048 on |
| WireProofs.PointerBytes3 | src/maxminddb.c:1655-1676 | control bytes 48 to 55 and three more are a pointer from 526336 on |
| WireProofs.PointerBytes4 | src/maxminddb.c:1655-1676 | control bytes 56 to 63 and four more are a pointer to that 32-bit number |
| Decoding.StructShows | src/maxminddb.c:1499-1648 | what a caller finds in the struct, type by type: the number of the type, the length of a string or of bytes, the number of children, and the value |
| Base.BigEndianFirst | src/maxminddb.c:1902-1909 | the first byte of a number is its most significant one |
| Decoding.EntryData.DecodeOne | src/maxminddb.c:1441-1651 | wherever decode_one does not read past the end: the struct shows the decoded field; numeric fields leave data_size and types that no value has leave the union as it was; no accepted uint32_t computation wraps |
| Decoding.EntryData.DecodePayload | src/maxminddb.c:1574-1646 | payload sizes are limited per type, and the value stored is the big-endian number or the bytes of the payload |
| Decoding.ReadSize | src/maxminddb.c:1510-1546 | in every section with at least as many bytes as give the size, the checks of the size switch decide whether those bytes are inside it |
| Decoding.SizeCheckIsExact | src/maxminddb.c:1510-1546 | the checks of the size switch are right if and only if the section has at least as many bytes as give the size, and pass in every shorter one |
| Decoding.OverReadsIffCheckIsWrong | src/maxminddb.c:1441-1546 | a field makes decode_one read past the end exactly where a size check passes although the size bytes are not there |
| Decoding.LongSectionsAreReadable | src/maxminddb.c:320-327 | no field does so in an empty section or one of at least three bytes |
| Decoding.OneByteSection | src/maxminddb.c:1453-1546 | a section of one byte is safe to decode if and only if the byte starts a pointer or an extended type or announces fewer than two size bytes |
| Decoding.MetadataOverRead | src/maxminddb.c:1530-1539 | in the section that is the byte 255, decode_one reads three bytes past the end |
| Decoding.SubtractiveCheckIsExact | src/maxminddb.c:1453-1539 | a check that subtracts from the section size is right if and only if the section has at least the bytes subtracted |
| Decoding.GetUintX | src/maxminddb.c:1902-1909 | the shifting loop computes the big-endian number of up to eight bytes without losing a bit |
| Decoding.GetUint128 | src/maxminddb.c:1431-1438 | the same for up to sixteen bytes |
| Base.BytesOfBigEndian | src/maxminddb.c:1902-1909 | a payload is determined by its length and the number it stands for |
| Base.BigEndianOfBytes | src/maxminddb.c:1902-1909 | every number that fits n bytes is read back from the n bytes that write it |
| Decoding.EntryData.DecodeOneFollow | src/maxminddb.c:1401-1428 | one pointer is followed and a second is an error; the next offset is that after the pointer for a scalar and that after the target's head for a container |
| Decoding.FollowFailsIff | src/maxminddb.c:1401-1428 | following fails exactly where one of the two fields cannot be read or a pointer leads to a pointer |
| ValueTree.DenotesIsParses | src/maxminddb.c:1441-1651 | the bytes are an encoding of a whole tree of fields exactly when decode_one, field by field, sees that tree |
| ValueTree.ParsesIsDeterministic | src/maxminddb.c:1718-1830 | the bytes at an offset denote at most one tree |
| ValueTree.TreeExtent | src/maxminddb.c:1760-1794 | a value takes at least one byte, and a container at least one byte for each child, inside the section |
| Flattening.FlattenIsPreorder | src/maxminddb.c:1718-1830 | get_entry_data_list succeeds with a list exactly when the offset denotes a tree no deeper than 512 levels that the memory holds, and the list is the preorder of that tree with the target's offset and the pointer's end for values behind pointers |
| Flattening.FlattenSucceedsIff | src/maxminddb.c:1718-1830 | on well-formed data only depth or memory can make it fail |
| Flattening.GuardsRejectNothing | src/maxminddb.c:1757-1794 | with and without the size-plausibility tests the same lists are returned |
| Flattening.MoreRoomChangesOnlyOutOfMemory | src/maxminddb.c:1766-1813 | with more memory the result is the same unless it was lack of memory |
| Flattening.EnoughRoom | src/maxminddb.c:1718-1830 | for all bytes some amount of memory is enough, so that lack of memory is reported only when there is too little |
| Flattening.GuardsAreExact | src/maxminddb.c:1757-1794 | a container is rejected before anything is allocated exactly when it claims more children than there are bytes left |
| Flattening.ShallowerListsTheSame | src/maxminddb.c:1723-1727 | a list returned at one depth is returned at every smaller depth |
| Flattening.ListNoLongerThanBytes | src/maxminddb.c:1757-1794 | without pointers to containers the list has at most one node for each byte of the value |
| Flattening.CyclicDataIsNeverListed | src/maxminddb.c:1723-1755 | a value that contains itself through any chain of pointers and containers is never listed |
| Skipping.Skip | src/maxminddb.c:1366-1399 | a successful skip of any bytes ends inside the section, and makes no more decodes than the bytes it passes |
| Skipping.SkipMapOrArray | src/maxminddb.c:1366-1399 | the in-place recursion leaves offset_to_next where `Skip` says and the struct showing the field that ends there, or fails where `Skip` does |
| Skipping.SkipIsExactIff | src/maxminddb.c:1366-1399 | skipping a well-formed value succeeds and ends at its end if and only if no in-place map has an in-place container with children as a key and the nesting in place stays within 512 levels |
| Skipping.ElementsLandIff | src/maxminddb.c:1385-1395 | stepping over elements arrives where the next one starts if and only if each of them can be skipped exactly |
| Skipping.PairsLandIff | src/maxminddb.c:1373-1384 | the same for map entries, whose keys must also not be in-place containers with children |
| Skipping.SkipLanding | src/maxminddb.c:1366-1399 | skipping a well-formed value succeeds and ends at or before its end, and at its end if and only if no in-place map has an in-place container with children as a key |
| Skipping.SkipSucceedsIff | src/maxminddb.c:1366-1372 | a safe value is skipped if and only if its nesting in place, with nothing behind pointers counted, stays within 512 levels |
| Skipping.SkipFailsIff | src/maxminddb.c:1366-1399 | on any bytes, a container is skipped unless its level is too deep or one of its children, each read where the one before ended, cannot be decoded or skipped |
| Skipping.SkipAgreesWithFlatten | src/maxminddb.c:1366-1399 | whatever the flattener accepts at a depth the skipper accepts at that depth, with the same next offset exactly under that condition |
| Skipping.ContainerKeyMisleadsSkip | src/maxminddb.c:1377-1380 | a five-byte value on which flattener and skipper end at different offsets |
| PathLookup.LookupIsOnTrackIff | src/maxminddb.c:1225-1428 | on every well-formed value and path, the lookup goes through exactly the offsets that navigating the tree goes through if and only if every value the path steps over can be skipped exactly |
| PathLookup.LookupIsNavigation | src/maxminddb.c:1225-1428 | then it returns the sub-value that navigating the tree reaches (first equal key, element from either end), through pointers, or the same error |
| PathLookup.SearchableIsClear | src/maxminddb.c:1225-1428 | that holds of every path when no map has a container key and no child is nested in place deeper than the skip limit |
| PathLookup.ListableIsSearchable | src/maxminddb.c:1225-1428 | every tree the flattener accepts meets that condition when its map keys are not in-place containers with children |
| PathLookup.LookupComposes | src/maxminddb.c:1225-1279 | on any bytes, looking up p followed by q is looking up q from the offset found for p; if p fails so does every extension, in the same way |
| PathLookup.LookupErrors | src/maxminddb.c:1225-1279 | on any bytes, a lookup fails with the error of the first path element that fails, or as invalid data when its start cannot be read |
| PathLookup.StepErrors | src/maxminddb.c:1281-1364 | an element does not match exactly when there are no children, the index is none of the array, or all keys were read and differ; the path is invalid exactly when an index is out of range; else the data is |
| PathLookup.SelectIndexIsElement | src/maxminddb.c:1281-1306 | the index arithmetic selects the element counted from the start, or from the end when negative, and rejects every other index |
| PathLookup.LookupPathInArray | src/maxminddb.c:1281-1323 | the loop of decodes and skips goes through the offsets of `StepTrail`, ends at the selected element, and the struct shows it |
| PathLookup.LookupPathInMap | src/maxminddb.c:1325-1364 | the loop goes through the offsets of `MapTrail`; the struct shows the value of the first entry with an equal key, or the status says why there is none |
| PathLookup.AgetValue | src/maxminddb.c:1225-1279 | the loop goes through the offsets of `Trail`; the struct shows the value found, and is all zeros after a path element fails |
| PathLookup.ContainerKeyHidesLaterKeys | src/maxminddb.c:1350-1359 | an eleven-byte value in which a key after a container key is there but is not found |
| DataPool.CanMultiplyIsExact | src/data-pool.c:44-50 | the division test is true exactly when the product of a positive number is within the limit |
| DataPool.BlocksDouble | src/data-pool.c:86-106 | block i holds s * 2^i elements and the blocks before it s * (2^i - 1) |
| DataPool.Pool.CountInClosedForm | src/data-pool.c:67-111 | the number of allocated elements is s * (2^index - 1) + used in every reachable pool |
| DataPool.Pool.Alloc | src/data-pool.c:67-111 | it fails exactly when there is no room left and then changes nothing; otherwise one distinct element is appended, and no earlier element changes its place, identity or contents |
| DataPool.CanGrowIff | src/data-pool.c:80-97 | a pool may grow while one of 32 slots is free and twice its last block, at 64 bytes an element, can be counted in 64 bits |
| DataPool.RoomEndsAtFirstFailure | src/data-pool.c:67-111 | from 64 elements on, a pool grows by 128, 256, ... up to the first block that is refused or the last slot, and never fails for an overflow |
| DataPool.RoomIsLimitedBySlots | src/data-pool.h:9-15 | with memory for every block a pool of initial size 64 is limited by its 32 slots alone, to 64 * (2^32 - 1) elements |
| EntryList.ListRoomIsExact | src/maxminddb.c:1687-1716 | how many nodes a list can have, given the first block that is refused |
| DataPool.NewPool | src/data-pool.c:14-38 | it returns nothing exactly for size zero, overflow or lack of memory; otherwise an empty pool whose first element names it as owner |
| DataPool.Pool.ToList | src/data-pool.c:116-145 | from every reachable state, and again after later allocations, the allocated elements become a chain in allocation order that ends in NULL; size - 1 does not underflow |
| EntryList.GetEntryDataList | src/maxminddb.c:1718-1830 | the recursion over the shared pool appends one node per item of `Flatten`, in order, with the same status |
| EntryList.MmdbGetEntryDataList | src/maxminddb.c:1687-1716 | on success the result is a chain of distinct nodes, headed by the owner of the pool, that shows exactly the items of `Flatten`; on failure it is NULL |
| Dumping.DumpPrintsTheTree | src/maxminddb.c:2058-2227 | dumping the list of a well-formed value never reads past its end, and consumes all of it and prints every value as it is and strings up to their first NUL; or it reports the first thing in its way: a key that is no string, a type that no value has, or a copy that is refused |
| Dumping.TroubleWithPlenty | src/maxminddb.c:2058-2227 | with memory for every copy, the dump succeeds if and only if all keys are strings and all types are those of values, and else the data is invalid |
| Dumping.DumpOfTree | src/maxminddb.c:2058-2227 | at any place in a list the dump of one value consumes exactly its preorder and returns the rest |
| Dumping.DumpEntryDataList | src/maxminddb.c:2058-2227 | the cursor over the linked list ends at the rest of the list, with the lines of `Dump` printed |
| CStrings.StrNLen | src/maxminddb-compat-util.h:99-107 | the length of the text before its first NUL, within the limit |
| CStrings.StrNDup | src/maxminddb-compat-util.h:149-159 | the copy is the text before its first NUL |
| Dumping.PrintValue | bin/mmdblookup.c:534-547 | listing a value and dumping the list prints the tree that the bytes denote, and for every such tree that fits depth and memory has the status that its printing deserves |
| Records.NodeCodec | src/maxminddb.c:1019-1041 | reading the left and right record of a node inverts writing them, in both directions, at 24, 28 and 32 bits |
| Records.Codec28 | src/maxminddb.c:1111-1119 | the two 28-bit getters take the high and the low nibble of the shared byte |
| SearchTree.WalkFollowsTheBits | src/maxminddb.c:984-999 | the lookup loop ends at a record and bit exactly when the address bits lead there through stored nodes and the walk has to stop there |
| SearchTree.BitsWriteTheAddress | src/maxminddb.c:985-986 | the bits taken are those of the address as a big-endian number, highest first |
| SearchTree.MappedBits | src/maxminddb.c:947-952 | the mapped form of an IPv4 address is 96 zero bits followed by the bits of the address, in order |
| SearchTree.LookupIsFromRoot | src/maxminddb.c:920-963 | every lookup, from the cached node or not, is a walk from the root along the bits that the address stands for: its own, or 96 zeros and its own |
| SearchTree.RefusedFamilies | src/maxminddb.c:932-957 | IPv6 addresses in IPv4 databases and other families are refused with their own status, which no other lookup reports, and nothing is found |
| SearchTree.UnknownLengths | src/maxminddb.c:968-972 | record lengths other than 6, 7 and 8 are an unknown format, for lookups and for reading nodes |
| SearchTree.LookupAnswersTheBits | src/maxminddb.c:920-1017 | for every address family in an opened database, a lookup answers with a netmask and an offset, or with no data, exactly when that many address bits lead to the record that stands for it |
| SearchTree.LookupFailsOnBadRecords | src/maxminddb.c:1001-1008 | a lookup reports a corrupt tree exactly when the bits lead to a record that stands for nothing |
| SearchTree.RecordCodec | src/maxminddb.c:1077-1170 | records are classified as nodes, then no data, then past the 16-byte separator the data, whose offset is the record's; added to the data section it is the record's place in the file |
| SearchTree.InvalidMeansNothing | src/maxminddb.c:1077-1109 | the invalid records are exactly the root, the separator and what lies past the data |
| SearchTree.OffsetNamesRecord | src/maxminddb.c:1166-1170 | the uint32_t subtraction, even where it wraps around, gives different records different offsets |
| SearchTree.WalkStaysInTree | src/maxminddb.c:988-992 | in a file laid out by MMDB_open the corrupt-tree test on a node's position never fires, and every node read lies wholly before the separator |
| SearchTree.FoundOffset | src/maxminddb.c:1003-1017 | the offset of a found entry is inside the data section and names the record the address bits lead to, if and only if the bits do not run out on a node |
| LoopingDatabase.LoopingFileOpens | src/maxminddb.c:252-345 | a file of two looping nodes and written metadata meets all that MMDB_open asks of its bytes |
| LoopingDatabase.ExhaustedWalkIsFound | src/maxminddb.c:1003-1017 | once it is open, every lookup reports an entry outside the data section |
| LoopingDatabase.LookUpInLoopingFile | src/maxminddb.c:920-1017 | opening that file and looking an address up in it does so |
| SearchTree.SubnetIsUniform | src/maxminddb.c:965-1017 | addresses that agree on the netmask bits of one of them get the same status, netmask, found flag and offset |
| SearchTree.NetworksArePrefixFree | src/maxminddb.c:965-1017 | two addresses get the same network or differ within the bits of both |
| SearchTree.StartNodeAgreesWithRoot | src/maxminddb.c:1043-1075 | in every opened IPv6 database an IPv4 lookup from the cached node gives what the lookup of the mapped address from the root gives |
| SearchTree.ReadsNodeIff | src/maxminddb.c:1133-1152 | a node of the tree can be read if and only if both of its stored records stand for something |
| SearchTree.ReadNodeIsExact | src/maxminddb.c:1121-1164 | reading a node returns its two stored records in order, with their kinds and the offsets of their data; numbers from the node count on are invalid node numbers, and meaningless records a corrupt tree |
| SearchTree.DescentSucceedsIff | src/maxminddb.c:1121-1164 | from any node, reading node by node succeeds if and only if the walk ends at a record that is no node and every node on the way can be read |
| SearchTree.ReadNodeAgreesWithLookup | src/maxminddb.c:1121-1164 | reading nodes one by one along an address succeeds if and only if the bits do not run out on a node and every node on the way can be read; it then ends at the depth, kind of record and offset of the lookup |
| MetadataReader.ReadMetadataValues | src/maxminddb.c:530-636 | the values are looked up and checked one after the other as `ReadMetadata` does; the first that is missing, of another type or not allowed decides the error |
| MetadataReader.OnlyMapsHaveKeys | src/maxminddb.c:1257-1306 | metadata that can be decoded but is no map has no value for any key, also when it is an array |
| MetadataReader.ReadMetadataChecks | src/maxminddb.c:539-626 | accepted metadata has nodes, a record size of 24, 28 or 32, version 4 or 6 of the protocol, and non-zero format version and build time |
| MetadataReader.ListHasChildren | src/maxminddb.c:741-769 | the list of a container starts with that container and has a node for each child, so stepping through it never reaches NULL |
| MetadataReader.PopulateLanguages | src/maxminddb.c:721-779 | the names are the strings of the array, each cut at its first NUL, or the error is that of the first that is no string or cannot be copied |
| MetadataReader.PopulateDescription | src/maxminddb.c:781-876 | the same for the pairs of language and description |
| MetadataTrees.LanguagesOfTree | src/maxminddb.c:721-779 | the languages read are the texts of the elements under "languages", in order, or the error of the first that has none or cannot be copied |
| MetadataTrees.DescriptionOfTree | src/maxminddb.c:781-876 | the descriptions read are, in order, the keys under "description" as languages and their values as texts |
| MetadataTrees.DescriptionAt | src/maxminddb.c:848-864 | the i-th description has the i-th key for its language and the value of that key for its text |
| MetadataTrees.MetadataOfTree | src/maxminddb.c:530-636 | from every tree that has the values, names and descriptions, these are read, and accepted or rejected for what they are |
| MetadataTrees.MetadataErrors | src/maxminddb.c:530-636 | on every tree, the error is that of the first step, in the order of the code, that fails |
| WrittenMaps.WrittenMapLookup | src/maxminddb.c:1325-1364 | looking up a key in a written map finds the value of the first entry with that key, or reports that there is none |
| WrittenMaps.WrittenMetadataIsRead | src/maxminddb.c:530-636 | metadata written in any order and beside any other entries is read back as these values, or rejected as of unknown format for its record size and as invalid for the rest |
| WrittenMaps.WrittenDatabaseOpens | src/maxminddb.c:252-345 | a tree of as many nodes as the metadata says, 16 bytes, data, the marker and written metadata open, whatever their sizes, with the data section after the 16 bytes |
| Database.WellFormedFileOpens | src/maxminddb.c:252-345 | the same for any metadata that can be read |
| Database.FitsIff | src/maxminddb.c:295-327 | a file has room exactly when it is a tree of that size, 16 bytes and 3 to 2^32 - 1 bytes of data; and it is too small exactly when 1 or 2 bytes of data are left |
| Database.Mmdb.Open | src/maxminddb.c:252-345 | opening succeeds exactly for files whose bytes hold metadata of version 2 that can be read, and room for tree, separator and data section, which then tile the file; the IPv4 start node is the one 96 zero bits lead to; each way to fail has its status |
| Database.Mmdb.LoadMetadata | src/maxminddb.c:278-294 | the metadata after the last marker is read, and decides the node count, record length, IP version and depth |
| Database.Mmdb.LayOutTree | src/maxminddb.c:295-341 | the part of opening after the metadata succeeds exactly when the file has room, and finding the IPv4 start node never makes it fail |
| Database.Mmdb.LayOutSections | src/maxminddb.c:295-327 | the layout arithmetic accepts exactly the files that fit, without overflow |
| Database.Mmdb.FindIpv4StartNode | src/maxminddb.c:1043-1075 | the loop stores the record and depth that up to 96 left turns from the root lead to |
| Database.Mmdb.WalkTree | src/maxminddb.c:984-999 | the loop ends where `Walk` ends and reads exactly the nodes of `NodesRead` |
| Database.Mmdb.FindAddressInSearchTree | src/maxminddb.c:965-1017 | the loop and classification fill in the result as `FindAddress` says, also on error |
| Database.Mmdb.Lookup | src/maxminddb.c:920-963 | the address family is checked against the database, and IPv4 is mapped into IPv6 databases |
| Database.Mmdb.ReadOneNode | src/maxminddb.c:1121-1164 | both records of a node with their types and offsets, or the error of the first failed test |
| Metadata.MemMem | src/maxminddb-compat-util.h:45-71 | the first occurrence, or nothing exactly when there is none |
| Metadata.MarkersDoNotOverlap | src/maxminddb.c:502-518 | continuing after a whole marker cannot miss one |
| Metadata.FindMetadata | src/maxminddb.c:491-528 | the metadata starts after the last marker within the final 131072 bytes and is the rest of the file; none is found exactly when there is no marker or the last one ends the file |
| Metadata.MarkerBeforeMetadataIsLast | src/maxminddb.c:491-528 | in a file made of anything, a marker and metadata without a marker, that marker is the last |
| Metadata.MarkerText | src/maxminddb.c:134 | the marker is the bytes ab cd ef and "MaxMind.com" |
| Metadata.OnlyTheEndIsSearched | src/maxminddb.c:491-503 | a marker counts exactly when it starts in the final 131072 bytes |

## Left out

- Decoding.EntryData.DecodeOne: does not state which members hold what after an error, because every caller returns or clears the struct.
- Skipping.SkipMapOrArray: does not name which field the struct shows afterwards beyond where it ends, because its callers use only offset_to_next.
- PathLookup.AgetValue: in metadata of one or two bytes it asks of every offset, also of those it does not reach, that decode_one does not read past the end; so do the other methods that decode more than one field.
- EntryList.GetEntryDataList: does not state what the nodes show after an error; the pool is then destroyed.
- Dumping.DumpEntryDataList: does not state which lines were printed before an error.
- Database.Mmdb.Open: does not state the members after an error, when the struct is freed; of metadata of one or two bytes it asks that no field makes decode_one read past the end of the file.
- WrittenMaps.WrittenMetadataIsRead: writes no names of languages and no descriptions, so that it needs only values without children; `MetadataTrees.MetadataOfTree` has both.
- PathLookup.LookupIsNavigation: on a path that is not clear the reported value can still be equal by coincidence, since two pointers may share a target; the offsets gone through cannot (`LookupIsOnTrackIff`).
- Mapping and reading files, errno and the Windows paths: input and output.
- getaddrinfo and sockaddr parsing: only the address bytes and the family are modelled.
- MMDB_get_value and MMDB_vget_value: they copy variadic arguments into a path.
- strtol: its result is part of a path element.
- The meaning of float and double bit patterns, and the layout of printed text.
- Freeing and closing: no result of this model depends on them.
- MMDB_get_metadata_as_entry_data_list and MMDB_strerror.
