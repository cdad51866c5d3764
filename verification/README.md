# Verified model of a read-only btrfs reader

The reader maps a disk image and answers three questions about it: which file a path names, what a
directory lists, and what bytes a file holds. This project models it from the bytes of the image
up, and proves that the layers fit together:

1. **`Crc32c`**: the CRC-32C of names. The byte table, the eight slicing tables and the loop of
   prologue, eight-byte blocks and tail all equal the bit-serial register over the reflected
   polynomial 0x82F63B78 (CRC32C of section 12.1 of RFC 3720; the raw register, with the seed
   given by the caller), for every seed, content, length, buffer address and byte order.
2. **`Bytes`, `Keys`, `Chunks`, `Striping`, `SysArray`**: little-endian fields, keys, and the chunk
   list that translates logical to physical addresses. The stripe map is a bijection, resolution
   is injective, and parsing the system chunk array undoes serialising it.
3. **`Trees`, `Btree`, `NodeBytes`, `Traverse`**: a tree is a sorted list of items, and an image that
   holds its nodes is read as exactly the items of its leaves. The keyed descent equals
   linear search over that list, and traversal with any handler equals a fold that stops right
   after the first BREAK.
4. **`Bootstrap`**: the chunk list is extended from a tree that is read through it, and this
   changes no tree and would find the same chunks again.
5. **`Paths`, `Directory`, `Listing`, `Errno`, `ReadRuns`, `FileRead`, `FileBytes`**: a path is a walk over its
   components, along the entries that the image holds; lookup and listing are two views of one directory, and
   reading fills the buffer with exactly the bytes of the file, which for each kind of extent are said in
   terms of the bytes of the image.
6. **`Layouts`**: instances of all on-disk structures, byte by byte.

An image is a function from physical addresses to bytes, and every structure is decoded from it at
the field offsets of the C declarations. A tree is seen through a *reader*, the function from logical
addresses to nodes that a chunk list and an image define; the theory of trees (`Trees`) is
about any reader. The loops of the C code are methods with loops; each is proved against a function,
and the lemmas are about those functions. Proofs use `hide` to keep definitions they do not need out
of the solver's sight; nothing is hidden from a contract.

The constants of the format are named in the definitions and written out in the lemmas about bytes: a serialised
structure comes back as what was stored (`LoadStore...`, `...FromBytes`, `...InvertsStore`), and what an entry, an
extent, a node or a root item means to the reader is stated for images that hold these bytes.

## What the proofs say about the code

Some things one would expect of the code do not hold, and the model follows the code:

- A chunk of exactly two stripes loses its second stripe (`btrfs_chunk_list.c:31` keeps additional
  stripes only when there are at least two), so that every odd unit is resolved through a null
  pointer. `Striping.StoredResolves` and `Striping.ChunkResolvesIff` give the exact condition, and
  `Striping.TwoStripesFault` an instance.
- `btrfs_low_find_tree_root` takes any item at most its key for the root item it looks for.
  `Bootstrap.TreeRootIff` says when it is one; `Bootstrap.WrongTreeRoot` is an instance.
- It returns the address in the root item unconverted (`btrfs_low.c:134`), the only field of the modelled code that is
  used so. The address is right if and only if the machine is little-endian or the eight bytes read the same
  backwards (`Bootstrap.TreeRootAddressIff`; in `Bootstrap.BigEndianTreeRoot` a root at 0x400000 is looked for at
  0x400000000000). `Directory.EnterByteOrderIff` says which path components this affects.
- `__btrfs_low_read` translates only the start of an extent. The bytes it gives are right on every image
  if and only if the extent lies in one stripe unit, in a chunk of several stripes and rows
  (`FileRead.StripedBytesIff`), or, in a chunk of a single row, if and only if the areas of the stripes it touches
  follow each other (`FileRead.OneRowBytesIff`). `FileRead.AcrossUnitEndMisread` is an instance. This holds for every
  chunk of a consistent list, wherever it stands (`Striping.MembersGovern`), so also for the list extended from the
  chunk tree. A file is served as it is stored if and only if each byte of each extent is (`FileRead.ServedIff`).
- Counts go through `int`, those of single extents as well as the total. `FileRead.ReadFile` says for every length
  what is written and returned. The count is reported if and only if it fits and no search failed
  (`FileRead.CountReportedIff`, with `FileRead.TwoGigabytes` as an instance), and the buffer is filled if and only if
  there is no gap in the range and every extent that ends inside it contributes no more than 2 GiB - 1 to it
  (`FileRead.BufferFilledIff`, with `ReadRuns.StopsAfterLargeExtent` as an instance).
- Where extents leave a gap, which stands for zeros (`FileRead.GapIsZero`), a read stops short, as at the end of the
  file (`ReadRuns.UnbrokenIff`, `ReadRuns.StopsAtGap`). In front of the first extent, or in a file without extent
  items, such as an empty one, it reports -ENOENT (`FileRead.CountReportedIff`). An extent of an unknown kind turns the
  result into -EINVAL even when bytes in front of it have been written (`ReadRuns.StopsAtUnknownKind`).
- Doubled and trailing slashes are not skipped; they look up an empty name
  (`Directory.EmptyComponentFails`, `Directory.TrailingSlashFails`, and "a/" in `Directory.SlashInstance`).
- `struct btrfs_key_pointer` is not declared packed. With 64-bit fields aligned to eight bytes the code
  expects block numbers at offset 24 in steps of 40 bytes, where the format has 17 and 33. Of a node laid out as the
  format does, the key and the block number of any pointer are right only when the bytes where they are expected
  happen to be those where they are (`Btree.PackedPointerIff`). The first key always is. The first block number is
  right only when its top byte and seven bytes of the generation spell it (`Btree.PackedPointerMisread`,
  `Btree.PackedPointerInstance`), and `Btree.SecondPackedKeyMisread` says what the second key is taken for
  (`Btree.SecondPackedKeyInstance`). The trees of this model are laid out as the code expects; no other proof uses the
  two constants.
- The comment on `exact` in `btrfs_find_in_btree.h:19` has its sense reversed, and says that objectid
  and type are compared; the code, which the model follows, gives the item of the greatest key at most
  the query when `exact` is false.
- In an inner root a query below the smallest key leaves the chosen pointer uninitialised.
  `Trees.PointerExists` shows that this is the only way to meet it, and `Trees.Searchable` is the exact
  precondition that excludes it; `Directory.EveryWalkOk` gives images on which path lookup never does it.

## Model

| member | source | states |
|---|---|---|
| Crc32c.StepLinear | lib/crc32c.c:210-211 | a step of the register is linear over exclusive or |
| Crc32c.BitsAreSteps | lib/crc32c.c:210-211 | feeding n bits one at a time is adding them all and stepping n times |
| Crc32c.TableByte | lib/crc32c.c:210-211 | one lookup in the byte table is one byte through the bit-serial register |
| Crc32c.TableIsSteps | lib/crc32c.c:243-672 | table k holds 8k steps of its index: each next table runs one more zero byte |
| Crc32c.TableEntryOne | lib/crc32c.c:243-672 | entry 1 of each of the eight literal tables is the value of the function standing for it |
| Crc32c.CheckValue | lib/crc32c.c:204-214 | the reference register gives the published check value of CRC-32C |
| Crc32c.CrcOfDefault | btrfs_low.c:145-147 | an instance: the seven letters of "default" from the seed ~1 give 0x8DBFC2D2 |
| Crc32c.LookupsAreSteps | lib/crc32c.c:703-709 | four lookups, one zero byte apart, step a whole word |
| Crc32c.BlockIsEightBytes | lib/crc32c.c:693-726 | the sliced step over eight bytes equals eight byte steps |
| Crc32c.AddWordIsXor | lib/crc32c.c:694-702 | the big-endian and little-endian loads of the first word add the same value |
| Crc32c.AddLookupsIsXor | lib/crc32c.c:710-725 | the big-endian and little-endian lookups of the second word add the same value |
| Crc32c.Block | lib/crc32c.c:693-726 | the loop body advances the reference CRC by its eight bytes in either byte order |
| Crc32c.SingleTable | lib/crc32c.c:204-214 | the byte-table loop computes the reference CRC |
| Crc32c.ByteLoop | lib/crc32c.c:690-692 | prologue and tail loops advance the reference CRC by their bytes |
| Crc32c.SlicingBy8 | lib/crc32c.c:676-731 | prologue, blocks and tail make up the buffer exactly, and compute the reference CRC |
| Crc32c.MultiTable | lib/crc32c.c:733-745 | the prologue taken from the buffer address never exceeds the buffer and does not affect the CRC |
| Crc32c.Calculate | lib/crc32c.c:747-757 | for every seed, content, length, address and byte order the result is the bit-serial CRC |
| Crc32c.CrcIsCrcBits | lib/crc32c.c:204-214 | the CRC of bytes is the bit-serial register over their bits, least significant first |
| Crc32c.CrcInjectiveInSeed | lib/crc32c.c:204-214 | the register is injective in its start value for a fixed input |
| Crc32c.BitBurstDetected | lib/crc32c.c:204-214 | bit strings differing only within 32 consecutive bits leave the register different |
| Crc32c.BurstDetected | lib/crc32c.c:204-214 | byte strings whose bits differ only within 32 consecutive places, wherever these start, have different CRCs |
| Crc32c.NoCollisionInWindow | lib/crc32c.c:204-214 | strings of one length differing only within four consecutive bytes have different CRCs |
| Bytes.LoadStore64 | types.h:19-36 | a little-endian field reads back what was written |
| Bytes.ByteWeights | types.h:19-36 | the weight of each byte of a field, converted from little-endian or used as it is on a big-endian machine |
| Bytes.Load64Same | types.h:19-36 | two fields have one value iff their eight bytes are the same |
| Bytes.Raw64Iff | types.h:19-36 | a field used without conversion has its value iff the machine is little-endian or its bytes read the same backwards |
| Keys.LoadStoreKey | struct/btrfs_disk_key.h:45-52 | a stored key reads back as itself |
| Keys.LoadKeySame | struct/btrfs_disk_key.h:45-52 | two stored keys are equal iff their seventeen bytes are |
| Keys.CompKeys | btrfs_find_in_btree.c:13-42 | -1, 0 or 1 as the first key is less than, equal to or greater than the second: the order of the numbers in which the objectid weighs 2^72, the type 2^64 and the offset 1 |
| Keys.KeyOrder | btrfs_find_in_btree.c:13-42 | the order of keys, by which trees are sorted, is that of these numbers |
| Keys.KeyOrderInstances | btrfs_find_in_btree.c:13-42 | instances: objectid decides before type, and type before offset |
| Keys.BinarySearch | btrfs_find_in_btree.c:50-107 | on any strictly sorted array: 0 with the equal element iff there is one, 1 with the greatest smaller, -1 iff all keys are greater |
| Chunks.NewChunkList | btrfs_chunk_list.c:17-51 | the new node keeps key, chunk and, unless there is exactly one, the additional stripes, in front of the list |
| Chunks.ResolveLogical | btrfs_chunk_list.c:90-117 | the walk gives what the first covering entry gives, or nothing when no entry covers the address |
| Chunks.ResolveStripeIn | btrfs_chunk_list.c:65-88 | the stripe arithmetic gives the address of the offset's place in its stripe |
| Striping.PlaceThenOffset | btrfs_chunk_list.c:70-87 | the offset is (row * stripes + index) * stripe length + offset in the unit |
| Striping.OffsetThenPlace | btrfs_chunk_list.c:70-87 | every stripe, row and offset in a unit is the place of exactly that offset |
| Striping.UnitIsAdjacent | btrfs_chunk_list.c:70-87 | addresses of one stripe unit stay adjacent |
| Striping.ContiguousInUnit | btrfs_chunk_list.c:65-88 | runs inside a unit, or in a one-stripe chunk, are contiguous on the device |
| Striping.StoredResolves | btrfs_chunk_list.c:23-41 | a list node resolves an offset as its chunk item says, except odd units of two-stripe chunks |
| Striping.ChunkResolvesIff | btrfs_chunk_list.c:31-45 | a whole chunk resolves correctly iff it does not have two stripes or ends in its first unit |
| Striping.TwoStripesFault | btrfs_chunk_list.c:31-45 | an instance: a chunk of two stripes faults at its second unit |
| Striping.TwoStripesAddress | struct/btrfs_chunk.h:38-39 | the unit that faults there is placed by the chunk item at its second stripe |
| Striping.StaysInShare | btrfs_chunk_list.c:70-87 | every offset of a complete chunk lands inside its stripe's share |
| Striping.ResolveInjective | btrfs_chunk_list.c:90-117 | with the stripe areas of distinct entries disjoint, two different mapped addresses never give one physical byte, also when entries are repeated |
| Striping.AreasOfSameEntries | btrfs_low.c:84-101 | disjointness of the areas depends only on which entries are in the list, not on order or repetition |
| Striping.StripedExtentIff | btrfs_chunk_list.c:65-88 | in a chunk of several stripes and rows a run of addresses is in one piece iff it lies in one stripe unit |
| Striping.OneRowExtentIff | btrfs_chunk_list.c:65-88 | in a chunk of a single row it is iff the areas of the touched stripes follow each other |
| Striping.AcrossUnitEnd | btrfs_chunk_list.c:65-88 | an instance: 8 KiB across a unit end of three stripes are not in one piece |
| Striping.OrderIndependent | btrfs_chunk_list.c:90-117 | lists of the same consistent entries resolve alike in any order |
| Striping.MembersGovern | btrfs_chunk_list.c:90-117 | in a consistent list every entry decides its addresses wherever it stands; the first entry does in any list |
| Striping.MappedIff | btrfs_chunk_list.c:97-112 | an address is mapped iff it lies in the range of some entry |
| Striping.AddressInUnits | btrfs_chunk_list.c:70-87 | unit u of a chunk of n stripes is unit u / n of stripe u % n |
| Striping.GovernedAddress | btrfs_chunk_list.c:90-117 | every address in the range of a chunk item resolves to that place, unless the chunk has two stripes |
| Striping.ThreeStripesAddresses | btrfs_chunk_list.c:65-117 | an instance: the ends, and the first four units, of a chunk of three stripes |
| Striping.ExtensionPreserves | btrfs_low.c:84-101 | consistent entries in front change no earlier resolution and resolve their own addresses |
| SysArray.ReadSysArray | btrfs_low.c:60-82 | the parser's list and final cursor are those of the record-by-record reading, on any bytes |
| SysArray.LoadStoreRecord | struct/btrfs_chunk.h:54-57 | a record of n stripes takes 65 + 32n bytes and reads back as its key and list node |
| SysArray.ParseInvertsStore | btrfs_low.c:60-82 | parsing a serialised array gives its records last first, with the cursor exactly at the end |
| SysArray.StoredReversedAt | btrfs_low.c:70-71 | position i of the list holds record length - 1 - i |
| SysArray.StripesSurviveIff | btrfs_chunk_list.c:31-45 | all stripes of a record survive iff it does not have exactly two |
| SysArray.ParsedArrayResolves | btrfs_low.c:60-82 | after parsing, every address of a chunk resolves as its record says |
| Trees.LastAtMostMeaning | btrfs_find_in_btree.c:44-49 | the reference search gives the greatest key at most the query, or nothing iff all are greater |
| Trees.FindExactMeaning | btrfs_find_in_btree.c:174-193 | exact search finds precisely the items of the list |
| Trees.FindByWeight | btrfs_find_in_btree.c:137-200 | both modes of the search in terms of keys as numbers: the greatest at most the query iff one is at most it, and the equal one iff there is one |
| Trees.FindInstances | btrfs_find_in_btree.c:13-42 | an instance where objectid and type disagree: (257, 1, 0) stands behind (256, 84, h) |
| Trees.FindNothingInstance | btrfs_find_in_btree.c:13-42 | an instance: an item of object 258 is not at most an extent of object 257 |
| Trees.TreeSorted | btrfs_find_in_btree.c:137-200 | a well-formed tree flattens to a strictly sorted list: keys are unique |
| Trees.Descend | btrfs_find_in_btree.c:161-172 | below the last pointer at most the query lies whatever the subtree holds at most the query |
| Trees.PointerExists | btrfs_find_in_btree.c:161-162 | an inner node has a pointer at most the query iff the subtree's smallest key is at most it |
| Btree.LoadStoreItem | struct/btrfs_item.h:7-19 | an item header is read as its key and the place of its data |
| Btree.PackedPointerIff | struct/btrfs_key_pointer.h:8-16 | for every packed pointer of a node: its key, and its block number, are read right iff the bytes where the code expects them equal those where they are |
| Btree.PackedPointerMisread | struct/btrfs_key_pointer.h:8-16 | the first packed pointer of a node yields its key, and its block number iff the top byte of that and seven bytes of the generation spell it |
| Btree.PackedPointerInstance | struct/btrfs_key_pointer.h:8-16 | an instance: block number 0x1000 of generation 1 is read as 0x100 |
| Btree.SecondPackedKeyMisread | struct/btrfs_key_pointer.h:8-16 | what the key of the second packed pointer of a node is read as |
| Btree.SecondPackedKeyInstance | struct/btrfs_key_pointer.h:8-16 | an instance: (257, INODE_ITEM, 0) is read as (256, 0, 0x100000) |
| Btree.SearchNode | btrfs_find_in_btree.c:109-135 | the search in a node of either level gives the last record at most the query |
| Btree.PathNode | btrfs_find_in_btree.c:161-174 | along the descent every search is well posed and none in an inner node returns -1 |
| Btree.FindInBtree | btrfs_find_in_btree.c:137-200 | for every searchable tree, key and mode the descent equals linear search over the flattened items |
| NodeBytes.LoadStoreHeader | struct/btrfs_header.h:10-45 | in a header of 101 bytes the reader finds the count and the level that were stored |
| NodeBytes.LeafFromBytes | btrfs_traverse_btree.c:68-81 | a leaf that holds n item headers of 25 bytes behind its header is a tree of exactly these n items, their data addressed from the end of the header |
| NodeBytes.InnerFromBytes | btrfs_traverse_btree.c:42-57 | an inner node that holds n key pointers behind its header is read as their keys and block numbers |
| NodeBytes.TreeFromBytes | btrfs_traverse_btree.c:11-84 | an image that holds the nodes of a tree of any depth is read as exactly the items of its leaves, from left to right |
| NodeBytes.WellFormedIff | btrfs_find_in_btree.c:137-172 | such a tree is well formed iff in its nodes keys ascend, and each pointer carries the smallest key below it, which ends before the next one's |
| Traverse.FoldVisitsPrefix | btrfs_traverse_btree.c:45-81 | the handler sees each item up to the first BREAK once and in order, and no other |
| Traverse.FoldAppend | btrfs_traverse_btree.c:45-67 | a BREAK at any depth ends the traversal of all later siblings |
| Traverse.TraverseNode | btrfs_traverse_btree.c:11-84 | for any handler the recursion over a well-formed tree is the fold over its items, signal included |
| Traverse.TraverseChildren | btrfs_traverse_btree.c:45-67 | the loop over the pointers folds the subtrees from left to right |
| Traverse.TraverseLeaf | btrfs_traverse_btree.c:68-81 | the loop over the items folds them in order |
| Traverse.TraverseBtree | btrfs_traverse_btree.c:86-100 | the accumulator ends as the fold leaves it; an unmapped root changes nothing |
| Bootstrap.ChunkEntriesMeaning | btrfs_low.c:91-100 | exactly the chunk items of the tree become list nodes |
| Bootstrap.ReadChunkTree | btrfs_low.c:103-115 | the list is extended in front by the chunk items of the tree read through it |
| Bootstrap.ChunkTreeInvertsStore | btrfs_low.c:84-101 | from the bytes of the chunk items (type 228): the list nodes of the records of the chunk tree, last first, whatever else is in it |
| Bootstrap.ChunkTreeResolves | btrfs_low.c:84-115 | once the chunk tree is read every address of its disjoint chunks is the device address of its record, unless the chunk has two stripes |
| Bootstrap.ExtensionPreservesIff | btrfs_low.c:84-101 | every earlier resolution is kept iff old and new never give one address two meanings |
| Bootstrap.ConsistentIsCompatible | btrfs_low.c:84-101 | agreement of overlapping chunks makes old and new compatible |
| Bootstrap.TreeStable | btrfs_low.c:103-115 | a tree read through a list is the same tree through any list that extends it |
| Bootstrap.BootstrapStable | btrfs_low.c:103-115 | the extended list keeps resolutions and trees, resolves every chunk of the tree, and would find the same chunks again |
| Bootstrap.ExtendedInjective | btrfs_low.c:84-115 | the list extended from a chunk tree that lists the system chunks again gives no physical byte to two addresses |
| Bootstrap.FindTreeRoot | btrfs_low.c:117-135 | the root address is taken, in the byte order of the machine, from the last item at most (objectid, ROOT_ITEM, max), 0 if there is none |
| Bootstrap.TreeRootAddressIff | btrfs_low.c:134 | the address returned is the one stored iff the machine is little-endian or the address reads the same backwards |
| Bootstrap.BigEndianTreeRoot | btrfs_low.c:134 | an instance: on a big-endian machine a root at 0x400000 is looked for at 0x400000000000 |
| Bootstrap.TreeRootIff | btrfs_low.c:117-135 | the item used is a root item of the tree, the one of greatest offset, iff the tree has one |
| Bootstrap.NoTreeRoot | btrfs_low.c:132-134 | with every key above the root keys of the tree the address is 0 |
| Bootstrap.LoadStoreRootItem | struct/btrfs_root_item.h:12-20 | the address of a stored root item stands at offset 176 |
| Bootstrap.TreeRootFromBytes | btrfs_low.c:117-135 | on a little-endian machine the root of a tree is where its last root item (type 132) says |
| Bootstrap.WrongTreeRoot | btrfs_low.c:117-135 | an instance: with only tree 3 present the root of tree 5 is that of tree 3 |
| Paths.JoinSplit | btrfs_low.c:149-153 | the components have no slash and join back to the path |
| Paths.SplitAppend | btrfs_low.c:204-238 | the components of p/q are those of p and then those of q |
| Paths.StrnEqualIff | btrfs_low.c:179-181 | for names without zero bytes the C comparison is equality of the bytes |
| Directory.LoadStoreDirItem | struct/btrfs_dir_item.h:19-68 | a stored entry reads back as its location and name |
| Directory.HashName | btrfs_low.c:145-147 | the hash is the reference CRC of the name from seed ~1, wherever the name lies in memory |
| Directory.HashIsCrc | btrfs_low.c:145-147 | the hash of a name is the CRC of its bytes from the seed 0xFFFFFFFE, however they are represented |
| Directory.HashOfDefault | btrfs_low.c:145-147 | an instance: "default" hashes to 0x8DBFC2D2 |
| Directory.HashOfNothing | btrfs_low.c:145-147 | an instance: the empty name hashes to the seed |
| Directory.CloseNamesHaveDifferentHashes | btrfs_low.c:145-147 | names of one length differing only within four consecutive bytes never share a hash |
| Directory.ScanIsLookup | btrfs_low.c:155-185 | the scan of the whole tree equals one exact search and one comparison, so the check before it changes nothing |
| Directory.LookupIff | btrfs_low.c:212-224 | a name is found iff the directory has an entry of that name stored under its hash |
| Directory.EnterName | btrfs_low.c:204-235 | one round finds the component, follows inodes and, by addresses in the byte order of the machine, roots, and reports -ENOENT or -EIO |
| Directory.EnterByteOrderIff | btrfs_low.c:226-232 | a component leads to the same place on machines of both byte orders iff no root address that does not read the same backwards is used |
| Directory.LocateFile | btrfs_low.c:187-244 | for every path and byte order the loop equals the recursive walk over its components |
| Directory.WalkAppend | btrfs_low.c:204-238 | walking two component lists in a row is walking their concatenation |
| Directory.LocateComposes | btrfs_low.c:187-244 | locating p/q is locating p and walking q from there |
| Directory.InodeEntryLeads | btrfs_low.c:226-228 | an entry (type 84, under its hash) whose stored location is an inode key (type 1) leads to that inode in the same tree |
| Directory.RootEntryLeads | btrfs_low.c:229-231 | one whose location is a root key (type 132) leads, on a little-endian machine, to object 256 of the tree whose address is in the last root item |
| Directory.OtherEntryFails | btrfs_low.c:232-235 | one with any other location gives -5 |
| Directory.NothingStored | btrfs_low.c:212-224 | without an item under the hash of the name the result is -2 |
| Directory.InnerDirectory | btrfs_low.c:204-238 | the second name of a path is looked up where the first leads: "a/b" is found although "b" is not |
| Directory.LocateIff | btrfs_low.c:187-244 | a path leads to an object iff the entries of the image give a route there from object 256, one component at a time |
| Directory.EveryWalkOk | btrfs_low.c:213-215 | on images whose file trees hold their root directory's inode every path lookup is well posed |
| Directory.FileTreeSearchable | btrfs_find_in_btree.c:161-162 | a tree that holds its root directory's inode is searchable for every key from that inode on |
| Directory.WalkStays | btrfs_low.c:204-238 | walks stay in the file trees and end at objects of the file range |
| Directory.LocatedIsSearchable | btrfs_low.c:240-243 | what a path names is searchable for all items of its object |
| Directory.EmptyComponentFails | btrfs_low.c:204-238 | a path with an empty component names nothing where no entry has an empty name |
| Directory.TrailingSlashFails | btrfs_low.c:237-238 | the path of a file with a slash behind it gives -ENOENT |
| Directory.SlashInstance | btrfs_low.c:237-238 | an instance: "a/" is looked up as "a" and then the empty name |
| Listing.StoreKeeps | btrfs_low.c:309-335 | growing and storing keeps every earlier name and leaves length at most capacity |
| Listing.FoldList | btrfs_low.c:289-338 | for any number of doublings all names are kept in order and no assertion or store fails |
| Listing.ListFiles | btrfs_low.c:340-404 | the listing is ".", ".." and the names of exactly the directory's entries, in key order |
| Listing.NamesMeaning | btrfs_low.c:298-304 | a name is listed iff some entry of the directory carries it |
| Listing.ListingInvertsStore | btrfs_low.c:289-338 | from the bytes of the directory items (type 84): the names listed are theirs, in order and each once |
| Listing.ListedIffFound | btrfs_low.c:187-404 | where entries are stored under the hash of their names, listed and found are the same |
| Listing.ListedOnce | btrfs_low.c:289-338 | such a directory lists no name twice |
| Listing.FoundEntry | btrfs_low.c:212-235 | the entry that lookup finds is the only one of that name |
| Listing.ListingAgreesWithPaths | btrfs_low.c:187-404 | below the directory a path names, a name avoids -ENOENT iff it is listed there, and is located iff its entry leads to an inode or a tree |
| FileRead.ReadExtent | btrfs_low.c:409-458 | the bytes of the extent, zeros for holes, clipped at its end, and nothing else written; -EINVAL for unknown types |
| FileRead.CopyBytes | btrfs_low.c:448-452 | the bytes of the source, or zeros without one, stand at the buffer position and nothing else changes |
| FileRead.LoadStoreExtent | struct/btrfs_file_extent_item.h:14-121 | a stored extent reads back as its length, type and address |
| FileBytes.InlineFile | btrfs_low.c:423-425 | a file of one extent of kind 0 is the data behind the head of the extent item |
| FileBytes.RegularFile | btrfs_low.c:427-436 | with kind 1 or 2 and an address mapped in one piece it is the bytes of the device there |
| FileBytes.HoleFile | btrfs_low.c:431-432 | with address 0 it is zeros |
| FileBytes.FileFromBytes | btrfs_low.c:409-458 | in a file of any such extents, with or without gaps, the data of each stand at its offset, and the reader serves the contents |
| FileBytes.SingleRead | btrfs_low.c:460-518 | one call on a file of one such extent copies min(length, rest) bytes of its data from the offset on, returns their number and changes nothing behind them |
| FileBytes.UnknownKindRead | btrfs_low.c:440-441 | where the extent at the offset is of kind 3 or more the call gives -22 and leaves the buffer alone |
| FileRead.ContiguousSource | btrfs_low.c:436-449 | in an extent of one piece, translating its start gives the same bytes as translating each address |
| FileRead.BytesIffInPiece | btrfs_low.c:436-449 | in any chunk whose addresses resolve through it, translating only the start gives the right bytes on every image iff the run is in one piece |
| FileRead.StripedBytesIff | btrfs_low.c:436-449 | in such a chunk of several stripes and rows the bytes are right on every image iff the extent lies in one stripe unit |
| FileRead.OneRowBytesIff | btrfs_low.c:436-449 | in such a chunk of a single row they are iff the areas of the touched stripes follow each other |
| FileRead.AcrossUnitEndMisread | btrfs_low.c:436-449 | an instance: an extent across a unit end of three stripes reads wrong on some image |
| FileRead.AdjacentInChunk | btrfs_low.c:436 | an extent inside one stripe unit or one-stripe chunk, at any place of a consistent list, is in one piece |
| FileRead.FindsExtent | btrfs_low.c:473-485 | the search finds the last extent that starts at or before the offset, whatever gaps there are |
| FileRead.FindsNoExtent | btrfs_low.c:477-482 | in front of the first extent, or without extents, the search never gives an extent of that file |
| FileRead.ContentAt | btrfs_low.c:494 | byte i of extent k stands at that extent's offset plus i in the contents |
| FileRead.ServedIff | btrfs_low.c:436-449 | what the reader serves is the contents of the file iff every byte of every extent is served as it is stored |
| FileRead.ContiguousServed | btrfs_low.c:436-449 | if every extent lies in one piece, what the reader serves is the contents of the file |
| FileRead.Round | btrfs_low.c:473-494 | a round takes its bytes from the extent that holds the offset and puts them in their place, or fails on an unknown kind |
| ReadRuns.NextInSpan | btrfs_low.c:443-457 | a round takes what its extent has left, at most what is asked for, and fails on an unknown kind |
| ReadRuns.NextBounds | btrfs_low.c:500-503 | a round takes nothing exactly at a gap or behind the end of the file |
| ReadRuns.StopMeaning | btrfs_low.c:500-503 | the place where reading stops is the first from the offset on that no extent of a known kind covers |
| ReadRuns.UnbrokenIff | btrfs_low.c:500-503 | the bytes up to the next gap are all up to the end of the file iff there is no gap in the range |
| ReadRuns.NextShift | btrfs_low.c:473-494 | a round that starts inside the bytes of another ends where that one ends |
| ReadRuns.ReachWithin | btrfs_low.c:473-514 | never more is written than there is to read in front of the next gap |
| ReadRuns.SmallRun | btrfs_low.c:473-514 | without an extent above 2 GiB - 1, or with no more than that to read, all up to the next gap is written and its count converted, or the error of the search there returned |
| ReadRuns.FilledIff | btrfs_low.c:473-514 | all up to the next gap is written iff every extent ending inside the range contributes at most 2 GiB - 1 |
| ReadRuns.ReturnIff | btrfs_low.c:496-514 | the returned value is the count iff the count fits an int and the read did not stop at a failing search |
| ReadRuns.TwoGigabyteRun | btrfs_low.c:496-514 | 2 GiB of a file of that size are all written and reported as -2^31, however the file is cut |
| ReadRuns.StopsAfterLargeExtent | btrfs_low.c:496-498 | an instance: a read stops after an extent above 2 GiB, with a negative return value |
| ReadRuns.StopsAtGap | btrfs_low.c:500-503 | an instance: a read stops in front of a gap of 4 KiB |
| ReadRuns.StopsAtUnknownKind | btrfs_low.c:440-441 | an instance: a read that reaches an extent of unknown kind gives -EINVAL though it has written bytes |
| FileRead.ReadingStep | btrfs_low.c:487-511 | a round keeps the state of the loop, also when it copied more than it could count |
| FileRead.ReadFile | btrfs_low.c:460-518 | for every length, with gaps and unknown kinds: the buffer gets what is served from the offset on as far as the rounds reach and nothing behind, that is the content when extents lie in one piece, the return value is the rounds' count or the error of a failing search, and both assertions hold |
| FileRead.FileMatches | btrfs_low.c:460-518 | the extents of a well-formed file are in order and end where the contents end |
| FileRead.OnlyContentWritten | btrfs_low.c:460-518 | for every length what is written is content, reaching neither over a gap nor over min(offset + length, size) |
| FileRead.BufferFilledIff | btrfs_low.c:460-518 | the buffer gets exactly content[offset .. min(offset + length, size)] iff there is no gap in that range and every extent ending inside it contributes at most 2 GiB - 1 |
| FileRead.SmallFileRead | btrfs_low.c:460-518 | for extents of at most 2 GiB - 1, or a count of at most that, the buffer is filled up to the next gap and the count converted to int, or the error of the search there, is returned |
| FileRead.ReadsCompose | btrfs_low.c:473-514 | two reads in a row count, and read, what one longer read does iff an int can count that and the first was not short or the second empty, which is always so without gaps |
| FileRead.BytesCompose | btrfs_low.c:473-514 | the bytes of two reads in a row are those of one longer read, for any count when no extent exceeds 2 GiB - 1 |
| FileRead.ShortReadIsLast | btrfs_low.c:500-503 | after a short read the call behind it returns 0, and without gaps so does every later one |
| FileRead.CountReportedIff | btrfs_low.c:473-514 | the count is returned iff it fits an int and the read did not end in a failing search; in front of the first extent -ENOENT is, and nothing written |
| FileRead.TiledFile | btrfs_low.c:473-514 | in a file without gaps all up to the end can be read, and no search fails |
| FileRead.TwoGigabytes | btrfs_low.c:514 | an instance: a read of 2 GiB of a file of that size fills the buffer and returns -2^31 |
| FileRead.LocatedIsReadable | btrfs_low.c:477-482 | on an image of file trees whatever a path names can be searched for its extents at any offset |
| Layouts.KeyLayout | struct/btrfs_disk_key.h:19-43 | an instance: the bytes of a stored key |
| Layouts.ItemLayout | struct/btrfs_item.h:7-11 | an instance: the bytes of an item header |
| Layouts.PointerLayout | struct/btrfs_key_pointer.h:8-12 | an instance: the bytes of a key pointer, as the code expects it |
| Layouts.HeaderLayout | struct/btrfs_header.h:10-37 | an instance: the bytes of a node header |
| Layouts.DirItemLayout | struct/btrfs_dir_item.h:19-64 | an instance: the bytes of a directory item |
| Layouts.RootItemLayout | struct/btrfs_root_item.h:12-20 | an instance: the bytes of a root item as far as its address |
| Layouts.ExtentLayout | struct/btrfs_file_extent_item.h:14-65 | an instance: the bytes of the head of an extent item |
| Layouts.StripeLayout | struct/btrfs_stripe.h:13-27 | an instance: the bytes of a stripe |
| Layouts.ChunkHeadLayout | struct/btrfs_chunk.h:9-40 | an instance: the bytes of a chunk item in front of its stripes |

## Left out

- Handlers are functions from accumulator and item to accumulator and signal, applied to a mutable accumulator object: Dafny has no pointers to methods. The growing array of the listing is therefore a sequence of slots inside the accumulator; its aliasing is not modelled.
- The chunk list is a value, since its nodes never change once filled; freeing it is not modelled.
- Bounds of the image: reads behind its end are not modelled.
- Allocation failures, and that the listing returns the pointer from before its shrinking `realloc`.
- Crc32c.TableEntryOne: compares entry 1 of each literal table; the other literals are taken to be the values of the function.
- FileRead.ReadFile: takes `ram_bytes` as an extent's length and ignores the inode size, compression, `offset` and `num_bytes`, because the code does; it requires extents that are not empty and do not overlap, and none that starts in a stripe the chunk list has lost, where the C code follows a null pointer.
- Listing.ListedIffFound: one name per directory item, because the code looks only at the first entry packed under a hash.
- Traverse.TraverseNode: requires levels to drop by one, because on cyclic images the C recursion does not end.
- Path components are taken to be separated by single slashes as the code does; "." and ".." have no meaning to it.
- Mirrored and parity profiles and several devices, which the code does not tell apart.
- Superblock checks, `stat`, `readlink`, opening and closing the file system, debug printing, the unused CRC-32 table.
