# A verified model of the MaxMind DB reader

This project models libmaxminddb's reader (`libmaxminddb/src/maxminddb.c`), the C library that node-geoip2c wraps, and
proves what its parts promise, over every file, address and lookup path the statements admit. The file format is the
MaxMind DB File Format Specification 2.0, which the repository carries.

Check it with `dafny verify dfyconfig.toml`.

## What is modelled

- **Bytes and fields.** `Bytes` has the big-endian readers. `Decode` has `decode_one` and `decode_one_follow`, which
  overwrite one struct in place (class `EntryData`, stale members and uninitialised locals included). `Layout` has an
  encoder written from the specification, the tree of values a position denotes (`WellFormed`, `Erase`), and the
  theorem that the decoder reads back what the encoder wrote. `FieldTable` states the specification's table of types,
  sizes and pointers in numbers, apart from the decoder's names and the encoder. `Example` takes one record through
  every reader, byte by byte.
- **Path lookup.** `Paths` (skipping, and exactly when it lands on the end), `ArrayIndex` (how an index is read),
  `Lookup` (the methods), `LayoutLookup` (what they do on every section that holds a layout) and `LookupRefines`
  (exactly when `MMDB_aget_value` answers as lookup in the value tree does, and that it always does on conforming
  sections).
- **Flattening.** `Flatten` (the list as a sequence is the preorder of the value), `Graph` and `Termination` (exactly
  when the traversal comes to an end), `Run` (what is built with a finite allocator, and exactly when the run
  returns), `EntryList` (the heap nodes, the allocator, freeing), `Traversals` (path lookup and flattening name the
  same nodes), `Dump` (the consumer) and `Mmdblookup` (all of them composed as the command line tool does).
- **Search tree.** `SearchTree` (descent, IPv4 start node, netmask), `Regions` (the subnets tile the address space),
  `NodeLayout` (packing of 24, 28 and 32 bit records), `Addresses` (the order of the bits of an address), `Database`
  (class `Handle` with the cached start node) and `CacheRace` (the cache under any number of threads).
- **Metadata search.** `Metadata`.

Conventions:

- A method that follows the C code is proved equal to a specification function (`DecodeSpec`, `SkipRest`, `GetSpec`,
  `RunField`, `DumpItems`, `LookupSpec`); the lemmas prove what those functions mean.
- Two statuses are not codes of the library. `Undefined` marks the runs on which the C code reads outside the section or
  the file or follows a null pointer. `Wrapped` marks the point where skipping meets a field whose end does not fit 32
  bits (`DecodeAdvances`, `WrapExample`). On sections that hold a layout, and on files that hold their tree, the lemmas
  exclude both.
- `data_section` includes the 16 separator bytes, as in the code, so pointers and tree records both carry a bias of 16.
- The code follows the first of the two offset formulas in the specification's section "Search Lookup Algorithm"; the
  second one, for the offset in the file, counts the separator twice. The model follows the code.
- `FlatField` is the traversal with as much memory as it needs. It takes an amount of fuel, and `Ended` says that it
  comes to an end within it; `FuelIrrelevant` shows that the outcome does not depend on the amount, and `EndsExactly`
  says on the bytes when there is enough. `RunField` is the traversal with a finite allocator. It comes to an end also
  where `FlatField` does not: containers that contain themselves use up the memory (`SelfArrayRunsOut`). It goes on
  forever only in the loop that follows pointers (`ReturnsExactly`).
- `Layout` values are finite, so a section "holds a layout" at a position when what lies there can be written down.
  `LayoutsAreSound` connects this with the condition on the bytes.
- Names for constants and shared definitions are pinned in numbers: `BigEndianDigit`, `BigEndianOfWidth`,
  `DecimalDigit` and `BinaryDigit` for the numbers bytes, digits and bits denote, `FieldTable` for the data section,
  `NodeFromBytes` and `LookupFollowsSearch` for the search tree, `StartsAfterFirstMarker` for the metadata.
- `Erase` drops pointers. The items of a map are listed as key, value, key, value.

Where the code departs from its promises:

- The early-out of an IPv4 lookup reports netmask 128 - i where the descent reports i + 1 (`EarlyOutNetmask`,
  `EarlyOutExample`).
- The IPv4 shortcut does not notice a zero record (`ShortcutAgreesExactly`, `ShortcutAlwaysAgrees`,
  `ShortcutMissesZeroRecord`).
- The cache is not thread safe while it is being filled (`ThreadSafeExactly`); a torn read makes the lookup answer
  wrongly (`TornEarlyOut`, `TornDescent` and their examples).
- `find_metadata` stops at the first marker, not the last (`FirstIsLastExactly`), and counts the marker into the size it
  reports.
- Array indices of 2^31 and above are rejected or taken modulo 2^32; the empty string is index 0.
- int32 payloads shorter than 4 bytes are not sign-extended (`SignedExactly`).
- A pointer to a pointer stops path lookup, as does a key that is no string; at the end of a path the entry handed out
  is the inner pointer (`AnswersExactly`, `ObstaclesStopLookup`). Flattening follows any number of pointers
  (`FlattensToPreorder`).
- The keys of a map are decoded but not skipped, so a key that is a container misleads skipping (`SkipLandsExactly`).
- Flattening does not come to an end where a field leads back to itself (`EndsExactly`). On a cycle of pointers it runs
  forever (`ReturnsExactly`, `SelfPointerNeverEnds`); on any other cycle it ends when memory is used up.
- `MMDB_read_node` lets the node number equal to the node count through.
- Strings with a NUL byte are cut when dumped, so a dump determines its value exactly when there are none.

## Model
| member | source | states |
|---|---|---|
| Bytes.GetUintX | libmaxminddb/src/maxminddb.c:1504-1512 | the loop computes the big-endian number of the bytes, and the fixed-width accumulator never overflows |
| Bytes.BigEndianDigit | libmaxminddb/src/maxminddb.c:1506-1510 | every byte is the digit of that number to the base 256 at its place, the first byte the most significant |
| Bytes.BigEndianOfWidth | libmaxminddb/src/maxminddb.c:1489-1502 | the readers of 2, 3 and 4 bytes read the same numbers |
| Bytes.ToInt32 | libmaxminddb/src/maxminddb.c:1514-1517 | the narrowing cast lands in the 32-bit range and changes the number by a multiple of 2^32 |
| Decode.EntryData.Clear | libmaxminddb/src/maxminddb.c:965 | memset leaves the zero entry |
| Decode.EntryData.CopyFrom | libmaxminddb/src/maxminddb.c:1046 | memcpy copies every member |
| Decode.DecodeOne | libmaxminddb/src/maxminddb.c:1153-1295 | in-place decoding leaves exactly the specified status and struct, stale members included |
| Decode.DecodePayload | libmaxminddb/src/maxminddb.c:1225-1294 | the numeric and string cases, with the members they leave untouched |
| Decode.DecodeOneFollow | libmaxminddb/src/maxminddb.c:1118-1139 | one pointer is followed, and the next offset is kept for a scalar target but not for a container |
| Decode.DecodeAdvances | libmaxminddb/src/maxminddb.c:1153-1295 | a successful decode starts inside the section, leaves the end of the field modulo 2^32 as the next offset, and so moves forward exactly when that end fits 32 bits |
| Decode.WrapExample | libmaxminddb/src/maxminddb.c:1293 | a field near 4 GiB whose next offset lies in front of it |
| Decode.DecodeIgnoresOldContents | libmaxminddb/src/maxminddb.c:1153-1295 | what a decode determines does not depend on what the struct held, e.g. an uninitialised local |
| Decode.FollowIgnoresOldContents | libmaxminddb/src/maxminddb.c:1118-1139 | the same for decode_one_follow |
| Layout.DecodeHeader | libmaxminddb/src/maxminddb.c:1168-1207 | control byte, extended type and the 29/30/31 size escapes read back for every type and every size up to 16843036 |
| Layout.DecodePointer | libmaxminddb/src/maxminddb.c:1302-1322 | each of the four pointer forms reads back as the value written, plus 16 |
| Layout.DecodeField | libmaxminddb/src/maxminddb.c:1225-1294 | every scalar field reads back with its type, value and end |
| Layout.DecodeLayout | libmaxminddb/src/maxminddb.c:1153-1295 | field round trip for all kinds of fields: type, meaning, size and next offset |
| Layout.WrongLengthRejected | libmaxminddb/src/maxminddb.c:1225-1271 | numbers of a length their type does not allow are rejected as invalid data |
| Layout.SignedExactly | libmaxminddb/src/maxminddb.c:1514-1517 | int32 means two's complement of its payload exactly at 0 or 4 bytes or with a clear sign bit |
| FieldTable.ControlBytes | libmaxminddb/src/maxminddb.c:1168-1207 | the control bytes of every type of the specification's table, with sizes below 29, announce that type number and size |
| FieldTable.HeaderTypes | libmaxminddb/src/maxminddb.c:1209-1223 | from any such bytes: type 7 is a map of so many pairs, 11 an array, 14 a boolean |
| FieldTable.PayloadTypes | libmaxminddb/src/maxminddb.c:1248-1294 | types 2, 3, 4 and 15 are strings, doubles, byte strings and floats, every type without a reader is passed over; a wrong length is refused with only offset and type stored |
| FieldTable.NumberTypes | libmaxminddb/src/maxminddb.c:1225-1262 | types 5, 6, 9 and 10 are unsigned numbers of up to 2, 4, 8 and 16 bytes, 8 a signed one of up to 4 |
| FieldTable.PointerForms | libmaxminddb/src/maxminddb.c:1302-1322 | the four pointer forms in numbers, counted from 16 bytes into the section, with the size and next offset stored |
| FieldTable.StartRefused | libmaxminddb/src/maxminddb.c:1158-1160 | only an offset beyond the section is refused before the struct is touched |
| Layout.ShortFormsTile | libmaxminddb/src/maxminddb.c:1306-1316 | every value below 134744064 has exactly one of the three short forms |
| Layout.ShortPointerRoundTrip | libmaxminddb/src/maxminddb.c:1306-1316 | every byte pattern of a short pointer decodes into the range of its form and is the encoding of its value |
| Layout.LongPointer | libmaxminddb/src/maxminddb.c:1317-1321 | the fourth form covers 32 bits, and adding 16 wraps exactly for the last 16 values |
| Layout.WellFormedEncodes | libmaxminddb/src/maxminddb.c:1153-1322 | a section that holds a layout field by field holds its whole encoding contiguously |
| Layout.EncodingIsWellFormed | libmaxminddb/src/maxminddb.c:1153-1322 | conversely, a section that holds the encoding of a layout and the targets of its pointers holds the layout, so every value can be written |
| Layout.SharedSection | libmaxminddb/src/maxminddb.c:1122-1136 | a conforming section in which two pointers share one value |
| Paths.SkipMapOrArray | libmaxminddb/src/maxminddb.c:1092-1116 | the recursion over one struct overwritten in place ends at the specified offset, or with the specified status, on any bytes |
| Paths.NeverWraps | libmaxminddb/src/maxminddb.c:1153-1295 | with room for one maximal payload below 4 GiB no next offset wraps around |
| Paths.SkipsOne | libmaxminddb/src/maxminddb.c:1092-1116 | on any stream of fields, skipping leaves exactly the specified fields in front of the cursor |
| Paths.SkipExact | libmaxminddb/src/maxminddb.c:1095-1102 | those are the fields after the skipped one if and only if no key inside it is a container with items |
| Paths.SkipLandsExactly | libmaxminddb/src/maxminddb.c:1092-1116 | decoding and skipping a value lands one past its encoding if and only if no key in it is a container with items; nothing is assumed of pointer targets, so none is followed |
| Paths.SkipLands | libmaxminddb/src/maxminddb.c:1092-1116 | it does so on every conforming value |
| ArrayIndex.NumberRead | libmaxminddb/src/maxminddb.c:1023-1032 | white space, a sign, digits and anything behind them: the index read, or the status, in numbers |
| ArrayIndex.NoNumberRead | libmaxminddb/src/maxminddb.c:1023-1032 | every other string: only the empty one is an index |
| ArrayIndex.DecimalDigit | libmaxminddb/src/maxminddb.c:1023 | digits are read as a decimal number, the most significant first |
| ArrayIndex.DigitsIndex | libmaxminddb/src/maxminddb.c:1023-1032 | a string of digits is read as its number if and only if that is below 2^31, and what happens otherwise |
| ArrayIndex.DecimalRoundTrip | libmaxminddb/src/maxminddb.c:1023 | reading the decimal digits of a number gives the number |
| ArrayIndex.IndexOfDecimal | libmaxminddb/src/maxminddb.c:1023-1032 | canonical decimals are read exactly below 2^31 |
| ArrayIndex.IndexAliases | libmaxminddb/src/maxminddb.c:1023-1032 | 2^32 and the empty string are taken for index 0 |
| ArrayIndex.NegativeIndex | libmaxminddb/src/maxminddb.c:1023-1028 | when a negative number is an invalid path, as an if-and-only-if |
| ArrayIndex.TrailingCharacters | libmaxminddb/src/maxminddb.c:1030-1032 | a number with something behind it does not match the data |
| ArrayIndex.NoNumber | libmaxminddb/src/maxminddb.c:1030-1032 | a string that is no number does not match the data |
| Lookup.FirstKeyIsLeast | libmaxminddb/src/maxminddb.c:1058-1086 | the key lookup of the value tree is the least matching position |
| Lookup.LookupPathInArray | libmaxminddb/src/maxminddb.c:1015-1049 | on any bytes: the n-th member, followed once, or the specified status |
| Lookup.LookupPathInMap | libmaxminddb/src/maxminddb.c:1051-1090 | on any bytes: the value of the first equal key, followed once, or the specified status |
| Lookup.GetValue | libmaxminddb/src/maxminddb.c:958-1013 | status and struct of MMDB_aget_value on any bytes; after the first decode every failure leaves the struct zeroed |
| LayoutLookup.FollowLayout | libmaxminddb/src/maxminddb.c:1118-1139 | decode_one_follow describes the target of any field, one hop on, and leaves the right next offset |
| LayoutLookup.FindOnLayouts | libmaxminddb/src/maxminddb.c:1058-1086 | scanning the pairs of any map does what the scan over its layout does: first matching key, invalid key, or none |
| LayoutLookup.MemberOnLayouts | libmaxminddb/src/maxminddb.c:983-1010 | one path element in the bytes of a container does what it does in its layout |
| LayoutLookup.LookupOnLayouts | libmaxminddb/src/maxminddb.c:958-1139 | on every section that holds a layout, conforming or not, MMDB_aget_value ends with the status, or at the field, that lookup on the layout ends with |
| LookupRefines.LandsWhereResolved | libmaxminddb/src/maxminddb.c:958-1139 | lookup on a layout and lookup in its value agree until the path meets a pointer to a pointer or a key that is no string |
| LookupRefines.AnswersExactly | libmaxminddb/src/maxminddb.c:958-1139 | MMDB_aget_value answers, in status and entry, as lookup in the value does, if and only if the path meets no such obstacle, or nothing behind a pointer to a pointer matches anyway |
| LookupRefines.PathLookup | libmaxminddb/src/maxminddb.c:958-1139 | on conforming sections path lookup refines tree lookup: success exactly when the path resolves, else its status, and the node reached is the resolved one |
| LookupRefines.LookupReadsValue | libmaxminddb/src/maxminddb.c:958-1013 | the struct handed back, stale members aside, says the type, value or size of the resolved node |
| LookupRefines.ObstaclesStopLookup | libmaxminddb/src/maxminddb.c:1122-1136 | wherever a path meets a pointer to a pointer, or a key that is no string, what MMDB_aget_value does instead |
| Flatten.FlattensToPreorder | libmaxminddb/src/maxminddb.c:1347-1452 | for every well-formed layout, pointer chains included, the entries are the preorder of the pointer-free value, and the head's next offset is past the value in its parent's stream |
| Flatten.ChaseLayout | libmaxminddb/src/maxminddb.c:1355-1362 | the chain loop ends at the first field that is not a pointer |
| Flatten.PointerFlattens | libmaxminddb/src/maxminddb.c:1353-1375 | the pointer case expands the target but continues after the pointer |
| Flatten.NodeFlattens | libmaxminddb/src/maxminddb.c:1376-1446 | a container is its header, patched with the offset after the last item, and its items |
| Flatten.ItemsFlatten | libmaxminddb/src/maxminddb.c:1376-1446 | the items of a container flatten one after the other |
| Termination.FuelIrrelevant | libmaxminddb/src/maxminddb.c:1347-1452 | the outcome of a traversal that ends does not depend on the fuel |
| Termination.ContentsIrrelevant | libmaxminddb/src/maxminddb.c:1347-1452 | nor does the way it ends depend on what the first node held before |
| Termination.EndsExactly | libmaxminddb/src/maxminddb.c:1347-1452 | on any bytes flattening comes to an end, well or on bad data, if and only if no field it goes on to leads back to itself |
| Termination.EndsWellExactly | libmaxminddb/src/maxminddb.c:1347-1452 | it ends in success if and only if everything the field leads to decodes and nothing leads back to itself |
| Termination.ChainEndsExactly | libmaxminddb/src/maxminddb.c:1357-1362 | the loop that follows pointers ends if and only if they form no cycle |
| Termination.LayoutsAreSound | libmaxminddb/src/maxminddb.c:1347-1452 | a position that holds a layout meets that condition |
| Run.RunsFlat | libmaxminddb/src/maxminddb.c:1380-1386 | with a finite allocator: the whole traversal if it has no more entries than memory, else as many of them as there is memory for, in the same order, and out of memory |
| Run.RunIsWhole | libmaxminddb/src/maxminddb.c:1347-1452 | a run that ends otherwise than for lack of memory is a traversal that ends |
| Run.ReturnsExactly | libmaxminddb/src/maxminddb.c:1355-1362 | MMDB_get_entry_data_list returns for every amount of memory if and only if no field it meets leads into a cycle of pointers |
| Run.SelfPointerNeverEnds | libmaxminddb/src/maxminddb.c:1357-1362 | on a pointer to itself it returns for no amount |
| Run.SelfArrayRunsOut | libmaxminddb/src/maxminddb.c:1380-1386 | an array that contains itself: the traversal has no end, every run uses up its memory and returns |
| EntryList.ListNode.constructor | libmaxminddb/src/maxminddb.c:1519-1524 | calloc hands out a zeroed node |
| EntryList.Allocator.Calloc | libmaxminddb/src/maxminddb.c:1519-1524 | a fresh node, or null when memory has run out |
| EntryList.Allocator.Free | libmaxminddb/src/maxminddb.c:1534 | frees a live node, which it requires |
| EntryList.ChasePointers | libmaxminddb/src/maxminddb.c:1355-1362 | the in-place chain loop ends where the chain does |
| EntryList.GetEntryDataList | libmaxminddb/src/maxminddb.c:1347-1452 | wherever it returns, it builds exactly the specified entries, partial lists included; in every outcome the nodes form one acyclic chain of all nodes allocated |
| EntryList.GetItems | libmaxminddb/src/maxminddb.c:1376-1446 | the same for a container: its items, then the next offset of its header |
| EntryList.AppendItems | libmaxminddb/src/maxminddb.c:1380-1398 | the loops over the items, as one |
| EntryList.AppendField | libmaxminddb/src/maxminddb.c:1381-1398 | one turn: the chain grows by the nodes of one field, linked at its end |
| EntryList.LinkNew | libmaxminddb/src/maxminddb.c:1382-1386 | the new node, or null, becomes the successor of the last one |
| EntryList.WalkToEnd | libmaxminddb/src/maxminddb.c:1395-1397 | the walk reaches the last node |
| EntryList.NewEntryDataList | libmaxminddb/src/maxminddb.c:1337-1345 | allocation conservation: success, bad data and out of memory all leave a list of exactly the nodes allocated, showing the specified entries; a traversal that ends runs out of memory exactly when it has more entries than memory |
| EntryList.FreeEntryDataList | libmaxminddb/src/maxminddb.c:1526-1535 | terminates and frees every node of the list exactly once |
| EntryList.ListAndFree | libmaxminddb/src/maxminddb.c:1337-1535 | building and freeing leaves the allocator unchanged in every outcome |
| Traversals.PathSlice | libmaxminddb/src/maxminddb.c:1347-1452 | the preorder of the node a path names is a contiguous slice of the preorder of the whole |
| Traversals.TraversalsAgree | libmaxminddb/bin/mmdblookup.c:274-283 | flattening from the offset path lookup returns gives exactly that slice |
| Dump.CString | libmaxminddb/src/maxminddb.c:1691-1700 | a printed string is the part before the first NUL, so the whole string exactly when it has none |
| Dump.DumpConsumesOne | libmaxminddb/src/maxminddb.c:1622-1782 | on the preorder of v followed by anything, the dump prints v and returns the first node of the rest |
| Dump.ReadsBack | libmaxminddb/src/maxminddb.c:1622-1782 | the nested tokens determine the value up to the cut strings |
| Dump.DumpOfUnknown | libmaxminddb/src/maxminddb.c:1775-1778 | a value of unknown type is invalid data, and no container is closed after it |
| Dump.DumpOfShortList | libmaxminddb/src/maxminddb.c:1635-1682 | a list that ends early is closed without an error |
| Dump.DumpRebuilds | libmaxminddb/src/maxminddb.c:1622-1782 | flatten and dump are undone by reading the tokens, if and only if no string has a NUL byte |
| Dump.DumpEntryDataList | libmaxminddb/src/maxminddb.c:1622-1782 | the recursion over the linked list writes the specified tokens and returns the specified node |
| Dump.DumpOnePair | libmaxminddb/src/maxminddb.c:1638-1655 | one turn of the map loop: the key, then the value dumped from the next node |
| Dump.DumpMapBody | libmaxminddb/src/maxminddb.c:1635-1659 | the map loop, ending with the size or with the list |
| Dump.DumpArrayBody | libmaxminddb/src/maxminddb.c:1674-1682 | the array loop, ending with the size or with the list |
| Mmdblookup.LookupAndPrint | libmaxminddb/bin/mmdblookup.c:262-320 | lookup, flatten, dump and free together: prints what the dump of the named value prints, all of it when it is printable, or exits with 5 and the status of the lookup, and leaks nothing |
| Example.RecordHeld | libmaxminddb/src/maxminddb.c:1153-1322 | a map with a shared string is a conforming record |
| Example.RecordLookups | libmaxminddb/src/maxminddb.c:958-1139 | what MMDB_aget_value finds and refuses in it |
| Example.RecordOffset | libmaxminddb/src/maxminddb.c:1051-1090 | and at which offset |
| Example.RecordFlattens | libmaxminddb/src/maxminddb.c:1347-1452 | its list |
| Example.RecordDumps | libmaxminddb/src/maxminddb.c:1622-1782 | its dump |
| SearchTree.SearchPath | libmaxminddb/src/maxminddb.c:760-798 | a descent as the nodes it visits and the record it ends with |
| SearchTree.WalkDependsOnPrefix | libmaxminddb/src/maxminddb.c:760-798 | a descent that ends after m bits ends the same way for all addresses with those m bits |
| SearchTree.NetmaskSound | libmaxminddb/src/maxminddb.c:760-869 | every address sharing the first netmask bits gets the same status, offset and netmask |
| SearchTree.NetmaskSoundFromStart | libmaxminddb/src/maxminddb.c:744-798 | the same for IPv4 lookups that begin at the start node |
| SearchTree.StartFollowsWalk | libmaxminddb/src/maxminddb.c:839-847 | the start node is where the descent of 96 zero bits arrives or leaves the tree |
| SearchTree.ShortcutRefinesDescent | libmaxminddb/src/maxminddb.c:744-756 | without a zero record on the way the shortcut equals the descent of ::a.b.c.d, the netmask exactly when the start node is in the tree |
| SearchTree.EarlyOutNetmask | libmaxminddb/src/maxminddb.c:749-752 | the two netmasks of the early-out, which differ |
| SearchTree.EarlyOutExample | libmaxminddb/src/maxminddb.c:749-752 | a tree on which they are 128 and 1 |
| SearchTree.ZeroStaysInTree | libmaxminddb/src/maxminddb.c:839-847 | with a zero record on the way the start node is a node of the tree |
| SearchTree.ShortcutAgreesExactly | libmaxminddb/src/maxminddb.c:839-847 | for all trees and addresses: shortcut and descent agree if and only if no left record on the way is zero or the descent from the start node ends in corruption |
| SearchTree.ShortcutMissesZeroRecord | libmaxminddb/src/maxminddb.c:839-847 | a tree on which they disagree |
| Regions.RegionsFillSpace | libmaxminddb/src/maxminddb.c:760-798 | the sizes of all regions of a tree sum to 2^depth |
| Regions.RegionsApart | libmaxminddb/src/maxminddb.c:760-798 | regions are pairwise disjoint |
| Regions.RegionOf | libmaxminddb/src/maxminddb.c:760-798 | every address lies in a region and its descent ends as the region says |
| Regions.LookupsReportRegions | libmaxminddb/src/maxminddb.c:760-869 | an address lies in exactly one region, whose record and prefix length its lookup reports |
| Regions.SubnetsTile | libmaxminddb/src/maxminddb.c:760-869 | for any node and block: the subnets lookups return sum to the whole block if and only if no address of it ends in corruption |
| Regions.AllSubnetsTile | libmaxminddb/src/maxminddb.c:760-869 | the same for lookups from the root and the whole address space |
| Regions.Ipv4SubnetsTile | libmaxminddb/src/maxminddb.c:744-869 | the same for IPv4 lookups from the start node and 2^32 addresses |
| Regions.ShortcutAlwaysAgrees | libmaxminddb/src/maxminddb.c:744-756 | the shortcut agrees with the descent on every IPv4 address if and only if no left record on the way is zero or no subnet lies below the start node |
| NodeLayout.UnpackPack | libmaxminddb/src/maxminddb.c:800-881 | reading a packed node returns its records for 24, 28 and 32 bits, the shared middle byte included |
| NodeLayout.PackUnpack | libmaxminddb/src/maxminddb.c:800-881 | every node of bytes is the packing of what is read from it |
| NodeLayout.NodeFromBytes | libmaxminddb/src/maxminddb.c:800-881 | the records of a node in numbers, from its bytes; at 28 bits the high nibble of the middle byte belongs to the left record |
| NodeLayout.PackAllSlice | libmaxminddb/src/maxminddb.c:769-775 | node n of a packed tree lies at n times the node length |
| Addresses.BitsOfByte | libmaxminddb/src/maxminddb.c:761-763 | the eight bits of each byte of an address, the one worth 128 first |
| Addresses.BitsDenoteAddress | libmaxminddb/src/maxminddb.c:761-763 | the bits of an address, most significant first, denote the big-endian number of its bytes |
| Addresses.BitIsDigit | libmaxminddb/src/maxminddb.c:761-763 | the bit looked at after k others is the binary digit of the address at that place |
| Addresses.MappedAddress | libmaxminddb/src/maxminddb.c:713-716 | a mapped IPv4 address is 96 zero bits and the bits of the address |
| Database.RecordMeetsPointer | libmaxminddb/src/maxminddb.c:858 | a tree record and a pointer name the same byte exactly when the record is node count + 16 + pointer |
| Database.Handle.constructor | libmaxminddb/src/maxminddb.c:246-253 | section sizes with their 32-bit arithmetic, and an unset cache |
| Database.Handle.ReadsStayInTree | libmaxminddb/src/maxminddb.c:769 | reads of nodes below the node count stay in the tree and their addresses do not wrap |
| Database.Handle.GettersReadNode | libmaxminddb/src/maxminddb.c:769-775 | each search step reads the record of the node it is at |
| Database.Handle.NodeAddressWraps | libmaxminddb/src/maxminddb.c:769 | node addresses are computed modulo 2^32 |
| Database.Handle.FindIpv4StartNode | libmaxminddb/src/maxminddb.c:824-853 | with a sound cache the answer is the fresh one, and the cache stays sound, on any file |
| Database.Handle.PopulateResult | libmaxminddb/src/maxminddb.c:855-869 | offset, found flag and netmask, or corruption with the result untouched |
| Database.Handle.FindAddressInSearchTree | libmaxminddb/src/maxminddb.c:727-798 | on any file the lookup depends on the file and the address alone |
| Database.Handle.Descend | libmaxminddb/src/maxminddb.c:758-797 | the loop over the packed bytes is the specified walk, it terminates on any records, and it stops where a read would leave the file |
| Database.Handle.LooksUpInTree | libmaxminddb/src/maxminddb.c:727-798 | on a file that holds its tree no read leaves the file and lookups answer as that tree determines |
| Database.Handle.LookupSockaddr | libmaxminddb/src/maxminddb.c:687-725 | the answer by address family; an IPv6 address in an IPv4 database writes no error |
| Database.Handle.SockaddrByFamily | libmaxminddb/src/maxminddb.c:702-722 | an address of the database's own family is looked up from the root with its own bits and its status written, an IPv4 address in an IPv6 database behind twelve zero bytes; no error is written exactly for an IPv6 address in an IPv4 database |
| Database.Handle.LookupFollowsSearch | libmaxminddb/src/maxminddb.c:687-869 | the specification's search in numbers: each node is left by the binary digit of the address, and the last record gives offset, found flag and netmask, or corruption |
| Database.Handle.OneNodeLookups | libmaxminddb/src/maxminddb.c:761-775 | two answers of a database of one node |
| Database.Handle.LookupMany | libmaxminddb/src/maxminddb.c:824-853 | over any history every lookup answers as it would alone |
| Database.Handle.SockaddrRefinesDescent | libmaxminddb/src/maxminddb.c:712-717 | an AF_INET lookup equals the AF_INET6 lookup of ::a.b.c.d |
| Database.Handle.ReadNode | libmaxminddb/src/maxminddb.c:883-903 | the two records of a node, on any file whose bytes they lie in; the number equal to the node count reads the bytes after the tree |
| Database.Handle.PackedFile | libmaxminddb/src/maxminddb.c:246-250 | a file that begins with packed nodes holds exactly that tree, and the data section is the rest |
| CacheRace.StepKeepsInv | libmaxminddb/src/maxminddb.c:829-852 | every step of every thread keeps the invariant |
| CacheRace.RunsKeepInv | libmaxminddb/src/maxminddb.c:829-852 | in every reachable state the cached members are zero or fresh |
| CacheRace.ReturnsInRuns | libmaxminddb/src/maxminddb.c:829-852 | a filling thread returns the fresh answer; any other returns it, or its value with netmask 0 |
| CacheRace.TornRunIsRun | libmaxminddb/src/maxminddb.c:849-850 | the torn view is reachable with two threads |
| CacheRace.ThreadSafeExactly | libmaxminddb/doc/libmaxminddb.md:811-814 | the promise of thread safety holds for the cache if and only if it is filled beforehand or a member of the answer is zero |
| CacheRace.FilledStaysFresh | libmaxminddb/src/maxminddb.c:829-852 | a filled cache stays filled and is all anyone sees |
| CacheRace.TornEarlyOut | libmaxminddb/src/maxminddb.c:749-752 | a torn view changes the netmask of an early-out to 128 |
| CacheRace.TornEarlyOutExample | libmaxminddb/src/maxminddb.c:749-752 | a tree on which 127 becomes 128 |
| CacheRace.TornDescent | libmaxminddb/src/maxminddb.c:754-755 | from a torn view every IPv4 address is answered as 0.0.0.0, with a netmask of at most 32 |
| CacheRace.TornDescentExample | libmaxminddb/src/maxminddb.c:754-755 | a tree on which an address without data gets the data of another, with netmask 1 |
| Metadata.Memmem | libmaxminddb/src/maxminddb-compat-util.h:45-72 | returns the least match, or none |
| Metadata.FindMetadata | libmaxminddb/src/maxminddb.c:338-361 | ends after one pass, 14 past the first marker of the last 131072 bytes, or 14 past their start when there is none, and the size from the marker on |
| Metadata.StartsAfterFirstMarker | libmaxminddb/src/maxminddb.c:114-116 | the window and the marker in numbers |
| Metadata.FirstIsLastExactly | libmaxminddb/src/maxminddb.c:338-361 | for every file the answer is the specification's exactly when the window holds one marker and no more |
| Metadata.StopsAtFirstMarker | libmaxminddb/src/maxminddb.c:338-361 | a file on which the two differ |

## Left out

- SkipMapOrArray: stops with `Wrapped` at a field whose end does not fit 32 bits; the C code goes on at the wrapped
  offset, which can lead it back to where it came from. There is no such field in a section that leaves room for one
  maximal payload (16843036 bytes) below 4 GiB (`NeverWraps`), nor in any stream of a layout (`SkipsOne`).
- GetEntryDataList: is called only where the C recursion returns (`ReturnsExactly` says where that is).
- AnswersExactly: assumes that no map key is a container with items (`Tidy`); what lookup does on other layouts is
  specified (`LookupOnLayouts`) but not compared with the value.
- AppendItems: covers the two loops of get_entry_data_list with one, a map being a stream of twice as many fields; the
  body of a turn, which the source writes three times, is AppendField.
- Fetch: a read outside the file is the status `Undefined`, not a value; MMDB_open does not check that the tree fits.
- CacheRace: sequential consistency and the order of the two stores are assumed; reordering is not modelled.
- DumpEntryDataList: failures of mmdb_strndup and bytes_to_hex, indentation, number formatting and hex text are left
  out; a token carries the value that is printed.
- DecodePayload: floats and doubles keep their bytes, without the reinterpretation of get_ieee754_float and
  get_ieee754_double.
- DigitsIndex: strtol is modelled in the C locale with a 64-bit long.
- read_metadata, the language and description lists and free_mmdb_struct are not modelled; the constructor of `Handle`
  takes the values they have checked.
- mmap, address parsing, varargs (MMDB_get_value, MMDB_vget_value), MMDB_strerror and the JavaScript binding are left
  out; file bytes, binary addresses and a sequence of path elements are parameters.
