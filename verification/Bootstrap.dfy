/** Extending the system chunk list from the chunk tree, which is itself read through that list,
    and finding the roots of the other trees. */
module Bootstrap {
  import opened Bytes
  import opened Keys
  import opened Chunks
  import opened Striping
  import opened SysArray
  import opened Trees
  import opened Btree
  import opened Traverse

  // ---------------------------------------------------------------- reading the chunk tree

  /** `__btrfs_low_read_chunk_tree_handler`. */
  function ChunkHandler(m: Memory): Handler<ChunkList> {
    (list: ChunkList, item: Item) =>
      if item.key.itemType != CHUNK_ITEM then (list, Continue)
      else (Prepend(EntryAt(m, item.key, item.data), list), Continue)
  }

  /** The list nodes of the chunk items, last item first. */
  function ChunkEntries(m: Memory, items: seq<Item>): seq<Entry>
    decreases |items|
  {
    if items == [] then []
    else ChunkEntries(m, items[1..])
         + (if items[0].key.itemType == CHUNK_ITEM then [EntryAt(m, items[0].key, items[0].data)] else [])
  }

  /** Exactly the chunk items of the tree become list nodes. */
  lemma {:induction false} ChunkEntriesMeaning(m: Memory, items: seq<Item>, e: Entry)
    ensures e in ChunkEntries(m, items) <==>
            exists item :: item in items && item.key.itemType == CHUNK_ITEM && EntryAt(m, item.key, item.data) == e
    decreases |items|
  {
    hide EntryAt;
    if items != [] {
      ChunkEntriesMeaning(m, items[1..], e);
      assert items == [items[0]] + items[1..];
    }
  }

  lemma {:induction false} FoldChunks(m: Memory, list: ChunkList, items: seq<Item>)
    ensures Contents(Fold(ChunkHandler(m), list, items).0) == ChunkEntries(m, items) + Contents(list)
    decreases |items|
  {
    hide EntryAt;
    if items != [] {
      FoldChunks(m, ChunkHandler(m)(list, items[0]).0, items[1..]);
    }
  }

  /** `btrfs_low_read_chunk_tree`: every chunk item of the tree is put in front of the list. */
  method ReadChunkTree(list: ChunkList, m: Memory, chunkRoot: nat) returns (result: ChunkList)
    requires Traversable(View(Contents(list), m), chunkRoot)
    ensures Contents(result) == ChunkEntries(m, TreeItems(View(Contents(list), m), chunkRoot)) + Contents(list)
  {
    FoldChunks(m, list, TreeItems(View(Contents(list), m), chunkRoot));
    var acc := new Acc(list);
    TraverseBtree(list, m, chunkRoot, acc, ChunkHandler(m));
    result := acc.value;
  }

  // ---------------------------------------------------------------- chunk items from their bytes

  /** A chunk item as the format lays it out, behind its key. */
  function StoreChunk(r: Record): seq<byte>
    requires ValidRecord(r)
  {
    StoreChunkHead(r.chunk) + (StoreStripe(r.chunk.stripe) + StoreStripes(r.extra))
  }

  function ChunkItems(items: seq<Item>): (chunks: seq<Item>)
    ensures forall item :: item in chunks <==> item in items && item.key.itemType == 228
    decreases |items|
  {
    if items == [] then []
    else (if items[0].key.itemType == 228 then [items[0]] else []) + ChunkItems(items[1..])
  }

  predicate HoldsChunk(m: Memory, item: Item, r: Record)
    requires ValidRecord(r)
  {
    item.key == r.key && Holds(m, item.data, StoreChunk(r))
  }

  /** The chunk items of the tree, in their order, hold these records. */
  predicate HoldsChunks(m: Memory, items: seq<Item>, rs: seq<Record>) {
    && |ChunkItems(items)| == |rs|
    && (forall i :: 0 <= i < |rs| ==> ValidRecord(rs[i]))
    && (forall i :: 0 <= i < |rs| ==> HoldsChunk(m, ChunkItems(items)[i], rs[i]))
  }

  lemma LoadStoreChunkItem(m: Memory, item: Item, r: Record)
    requires ValidRecord(r) && HoldsChunk(m, item, r)
    ensures EntryAt(m, item.key, item.data) == r.Stored()
  {
    hide LoadChunk, StoreChunkHead, StoreStripe, StoreStripes, LoadStripes, Holds;
    var stripes := StoreStripe(r.chunk.stripe) + StoreStripes(r.extra);
    HoldsSplit(m, item.data, StoreChunkHead(r.chunk), stripes);
    HoldsSplit(m, item.data + 48, StoreStripe(r.chunk.stripe), StoreStripes(r.extra));
    LoadStoreChunk(m, item.data, r.chunk);
    LoadStoreStripes(m, item.data + 80, r.extra);
  }

  /** A chunk tree that holds the records `rs`, among other items or not, gives the list nodes of
      these records, last first, as the system chunk array does. */
  lemma {:induction false} ChunkTreeInvertsStore(m: Memory, items: seq<Item>, rs: seq<Record>)
    requires HoldsChunks(m, items, rs)
    ensures ChunkEntries(m, items) == StoredReversed(rs)
    decreases |items|
  {
    hide EntryAt, HoldsChunk, Record.Stored, ValidRecord;
    if items != [] {
      if items[0].key.itemType == 228 {
        assert ChunkItems(items)[0] == items[0] && ChunkItems(items)[1..] == ChunkItems(items[1..]);
        LoadStoreChunkItem(m, items[0], rs[0]);
        ChunkTreeInvertsStore(m, items[1..], rs[1..]);
      } else {
        assert ChunkItems(items) == ChunkItems(items[1..]);
        ChunkTreeInvertsStore(m, items[1..], rs);
      }
    }
  }

  // ---------------------------------------------------------------- what the extension keeps

  lemma {:induction false} ResolveAppend(xs: seq<Entry>, ys: seq<Entry>, logical: nat)
    ensures Resolve(xs + ys, logical) ==
            if Resolve(xs, logical) != Unmapped then Resolve(xs, logical) else Resolve(ys, logical)
    decreases |xs|
  {
    hide ResolveStripe;
    if xs == [] {
      assert xs + ys == ys;
    } else {
      assert (xs + ys)[1..] == xs[1..] + ys;
      ResolveAppend(xs[1..], ys, logical);
    }
  }

  /** From bytes to addresses: once the chunk tree has been read, every address of every chunk in it
      is the device address of its record, unless the chunk has two stripes. */
  lemma ChunkTreeResolves(m: Memory, items: seq<Item>, rs: seq<Record>, system: seq<Entry>, i: nat, logical: nat)
    requires HoldsChunks(m, items, rs) && RangesDisjoint(rs)
    requires i < |rs| && rs[i].chunk.stripeLen > 0 && rs[i].chunk.numStripes != 2
    requires rs[i].key.offset <= logical < rs[i].key.offset + rs[i].chunk.length
    ensures Resolve(ChunkEntries(m, items) + system, logical) == At(rs[i].Address(logical - rs[i].key.offset))
  {
    assert ValidRecord(rs[i]);
    hide StoredReversed, RangesDisjoint, Resolve, Record.Address, HoldsChunks, ValidRecord, ChunkEntries;
    ChunkTreeInvertsStore(m, items, rs);
    StoredReversedResolves(rs, i, logical);
    ResolveAppend(ChunkEntries(m, items), system, logical);
  }

  /** Two lists that never give one address two meanings. */
  ghost predicate Compatible(xs: seq<Entry>, ys: seq<Entry>) {
    forall a: nat :: Resolve(xs, a) != Unmapped && Resolve(ys, a) != Unmapped ==> Resolve(xs, a) == Resolve(ys, a)
  }

  /** Putting `added` in front keeps every earlier resolution if and only if the two are compatible. */
  lemma ExtensionPreservesIff(added: seq<Entry>, entries: seq<Entry>)
    ensures (forall a: nat :: Resolve(entries, a) != Unmapped ==> Resolve(added + entries, a) == Resolve(entries, a))
       <==> Compatible(added, entries)
  {
    hide Resolve;
    forall a: nat
      ensures Resolve(added + entries, a) ==
              if Resolve(added, a) != Unmapped then Resolve(added, a) else Resolve(entries, a)
    {
      ResolveAppend(added, entries, a);
    }
    if !Compatible(added, entries) {
      var a: nat :| Resolve(added, a) != Unmapped && Resolve(entries, a) != Unmapped &&
        Resolve(added, a) != Resolve(entries, a);
      assert Resolve(added + entries, a) != Resolve(entries, a);
    }
  }

  /** Overlap agreement entry by entry makes the two parts compatible. */
  lemma ConsistentIsCompatible(added: seq<Entry>, entries: seq<Entry>)
    requires Consistent(added + entries)
    ensures Compatible(added, entries)
  {
    forall a: nat | Resolve(added, a) != Unmapped && Resolve(entries, a) != Unmapped
      ensures Resolve(added, a) == Resolve(entries, a)
    {
      var e, f := added[FirstCover(added, a)], entries[FirstCover(entries, a)];
      assert e in added + entries && f in added + entries;
      assert Agree(e, f, a);
    }
  }

  // ---------------------------------------------------------------- trees through the longer list

  ghost predicate Extends(wide: Reader, narrow: Reader) {
    forall a: nat :: narrow(a).Some? ==> wide(a) == narrow(a)
  }

  /** A tree that can be read stays the same tree through any reader that extends the first. */
  lemma {:induction false} TreeStable(narrow: Reader, wide: Reader, a: nat, level: nat)
    requires Extends(wide, narrow)
    requires TreeAt(narrow, a, level)
    ensures TreeAt(wide, a, level) && Items(wide, a, level) == Items(narrow, a, level)
    decreases level, 0
  {
    assert wide(a) == narrow(a);
    match narrow(a)
    case Some(Leaf(keys, data)) =>
    case Some(Inner(l, keys, children)) =>
      TreesStable(narrow, wide, children, level - 1);
  }

  lemma {:induction false} TreesStable(narrow: Reader, wide: Reader, nodes: seq<nat>, level: nat)
    requires Extends(wide, narrow)
    requires forall i :: 0 <= i < |nodes| ==> TreeAt(narrow, nodes[i], level)
    ensures forall i :: 0 <= i < |nodes| ==> TreeAt(wide, nodes[i], level)
    ensures forall i :: 0 <= i < |nodes| ==> Items(wide, nodes[i], level) == Items(narrow, nodes[i], level)
    ensures ItemsBelow(wide, nodes, level) == ItemsBelow(narrow, nodes, level)
    decreases level, 1 + |nodes|
  {
    hide Extends;
    if nodes != [] {
      TreeStable(narrow, wide, nodes[0], level);
      TreesStable(narrow, wide, nodes[1..], level);
      forall i | 0 <= i < |nodes|
        ensures TreeAt(wide, nodes[i], level) && Items(wide, nodes[i], level) == Items(narrow, nodes[i], level)
      {
        if i > 0 { assert nodes[i] == nodes[1..][i - 1]; }
      }
    }
  }

  /** The bootstrap is stable. When the chunk items agree with the system chunks wherever both
      map an address, the extended list resolves all that the system list did, reads every tree
      that the system list could read as the same tree, and would find in the chunk tree the very
      entries it was extended with. */
  lemma BootstrapStable(m: Memory, system: seq<Entry>, chunkRoot: nat, root: nat)
    requires Compatible(ChunkEntries(m, TreeItems(View(system, m), chunkRoot)), system)
    requires WellFormed(View(system, m), chunkRoot) && WellFormed(View(system, m), root)
    ensures var added := ChunkEntries(m, TreeItems(View(system, m), chunkRoot));
            var extended := added + system;
            && (forall a: nat :: Resolve(system, a) != Unmapped ==> Resolve(extended, a) == Resolve(system, a))
            && (forall a: nat, e :: e in added && Covers(e, a) ==> Resolve(extended, a) != Unmapped)
            && WellFormed(View(extended, m), root)
            && TreeItems(View(extended, m), root) == TreeItems(View(system, m), root)
            && ChunkEntries(m, TreeItems(View(extended, m), chunkRoot)) == added
  {
    var added := ChunkEntries(m, TreeItems(View(system, m), chunkRoot));
    var extended := added + system;
    ExtensionPreservesIff(added, system);
    ViewExtends(m, extended, system);
    forall a: nat, e | e in added && Covers(e, a) ensures Resolve(extended, a) != Unmapped {
      ResolveAppend(added, system, a);
      if Resolve(added, a) == Unmapped { ResolveUnmapped(added, a); }
    }
    hide View, ChunkEntries, Resolve, Compatible;
    RootStable(View(system, m), View(extended, m), root);
    RootStable(View(system, m), View(extended, m), chunkRoot);
  }

  lemma ViewExtends(m: Memory, wide: seq<Entry>, narrow: seq<Entry>)
    requires forall a: nat :: Resolve(narrow, a) != Unmapped ==> Resolve(wide, a) == Resolve(narrow, a)
    ensures Extends(View(wide, m), View(narrow, m))
  {
    hide Resolve, NodeAt;
    forall a: nat | View(narrow, m)(a).Some? ensures View(wide, m)(a) == View(narrow, m)(a) {
      assert Resolve(narrow, a) != Unmapped;
    }
  }

  lemma RootStable(narrow: Reader, wide: Reader, root: nat)
    requires Extends(wide, narrow) && WellFormed(narrow, root)
    ensures WellFormed(wide, root) && TreeItems(wide, root) == TreeItems(narrow, root)
  {
    assert wide(root) == narrow(root);
    TreeStable(narrow, wide, root, Level(narrow, root));
  }

  /** The chunk tree lists the system chunks again, so the extended list holds them twice. Still it
      maps no two addresses to one byte, if the areas of the chunks of the tree are apart. */
  lemma ExtendedInjective(m: Memory, system: seq<Entry>, chunkRoot: nat, added: seq<Entry>, a: nat, b: nat)
    requires added == ChunkEntries(m, TreeItems(View(system, m), chunkRoot))
    requires forall e :: e in system ==> e in added
    requires AreasDisjoint(added)
    requires a != b
    requires Resolve(added + system, a) != Unmapped && Resolve(added + system, b) != Unmapped
    ensures Resolve(added + system, a).At? && Resolve(added + system, b).At?
    ensures Resolve(added + system, a) != Resolve(added + system, b)
  {
    hide AreasDisjoint, Resolve;
    AreasOfSameEntries(added, added + system);
    ResolveInjective(added + system, a, b);
  }

  // ---------------------------------------------------------------- tree roots

  const ROOT_BYTENR := 176
  const MAX_OFFSET: u64 := 0xFFFF_FFFF_FFFF_FFFF

  function RootKey(objectid: u64): Key { Key(objectid, ROOT_ITEM, MAX_OFFSET) }

  /** The address that the search for a tree's root gives: 0 when nothing is at most the key. The
      field is returned as it is, in the byte order of the machine. */
  function TreeRoot(m: Memory, items: seq<Item>, objectid: u64, bigEndian: bool): u64 {
    match Find(items, RootKey(objectid), false)
    case None => 0
    case Some(item) => Raw64(m, item.data + ROOT_BYTENR, bigEndian)
  }

  /** `btrfs_low_find_tree_root`. */
  method FindTreeRoot(list: ChunkList, m: Memory, root: nat, objectid: u64, bigEndian: bool) returns (r: u64)
    requires Searchable(View(Contents(list), m), root, RootKey(objectid))
    ensures r == TreeRoot(m, TreeItems(View(Contents(list), m), root), objectid, bigEndian)
  {
    var item := FindInBtree(list, m, root, RootKey(objectid), false);
    if item == None {
      return 0;
    }
    return Raw64(m, item.value.data + ROOT_BYTENR, bigEndian);
  }

  /** A root item as the format lays it out, as far as its address. */
  function StoreRootItem(inode: seq<byte>, generation: u64, rootDirid: u64, bytenr: u64): (s: seq<byte>)
    requires |inode| == 160
    ensures |s| == 184
  {
    inode + (Store64(generation) + (Store64(rootDirid) + Store64(bytenr)))
  }

  lemma LoadStoreRootItem(m: Memory, p: nat, inode: seq<byte>, generation: u64, rootDirid: u64, bytenr: u64)
    requires |inode| == 160 && Holds(m, p, StoreRootItem(inode, generation, rootDirid, bytenr))
    ensures Load64(m, p + 176) == bytenr
    ensures Holds(m, p + 176, Store64(bytenr))
  {
    hide Load64, Store64, Holds;
    var t2 := Store64(rootDirid) + Store64(bytenr);
    HoldsSplit(m, p, inode, Store64(generation) + t2);
    HoldsSplit(m, p + 160, Store64(generation), t2);
    HoldsSplit(m, p + 168, Store64(rootDirid), Store64(bytenr));
    LoadStore64(m, p + 176, bytenr);
  }

  /** The item is the root item of the tree, of the greatest offset if there are several. */
  predicate LastRoot(items: seq<Item>, objectid: u64, root: Item) {
    && root in items && root.key.objectid == objectid && root.key.itemType == 132
    && forall i :: 0 <= i < |items| && items[i].key.objectid == objectid && items[i].key.itemType == 132 ==>
         items[i].key.offset <= root.key.offset
  }

  /** On a little-endian machine the root of a tree is where its last root item says. */
  lemma TreeRootFromBytes(m: Memory, items: seq<Item>, objectid: u64, root: Item, inode: seq<byte>, generation: u64,
                          rootDirid: u64, address: u64)
    requires SortedItems(items) && LastRoot(items, objectid, root)
    requires |inode| == 160 && Holds(m, root.data, StoreRootItem(inode, generation, rootDirid, address))
    ensures TreeRoot(m, items, objectid, false) == address
  {
    LastRootFound(items, objectid, root);
    hide Find, LastRoot, SortedItems, Load64;
    LoadStoreRootItem(m, root.data, inode, generation, rootDirid, address);
  }

  /** With every key greater than any root key of the tree there is no root, and the address is 0. */
  lemma NoTreeRoot(m: Memory, items: seq<Item>, objectid: u64, bigEndian: bool)
    requires SortedItems(items)
    requires forall i :: 0 <= i < |items| ==> Less(Key(objectid, 132, 0xFFFF_FFFF_FFFF_FFFF), items[i].key)
    ensures TreeRoot(m, items, objectid, bigEndian) == 0
  {
    hide Raw64;
    LastAtMostMeaning(items, RootKey(objectid));
  }

  lemma LastRootFound(items: seq<Item>, objectid: u64, root: Item)
    requires SortedItems(items) && LastRoot(items, objectid, root)
    ensures Find(items, RootKey(objectid), false) == Some(root)
  {
    TreeRootIff(items, objectid);
    hide Find;
    var found := Find(items, RootKey(objectid), false).value;
    assert IsRootItem(root, objectid);
    var i :| 0 <= i < |items| && items[i] == root;
    var j :| 0 <= j < |items| && items[j] == found;
    assert found.key == root.key;
  }

  /** The address returned is the one stored if and only if the machine is little-endian or the
      address reads the same backwards. */
  lemma TreeRootAddressIff(m: Memory, items: seq<Item>, objectid: u64, bigEndian: bool, item: Item, address: u64)
    requires Find(items, RootKey(objectid), false) == Some(item)
    requires Holds(m, item.data + ROOT_BYTENR, Store64(address))
    ensures TreeRoot(m, items, objectid, bigEndian) == address
       <==> !bigEndian || Palindrome(m, item.data + ROOT_BYTENR)
  {
    hide LastAtMost, Load64, Raw64, Store64;
    Raw64Iff(m, item.data + ROOT_BYTENR, bigEndian);
    LoadStore64(m, item.data + ROOT_BYTENR, address);
  }

  /** An instance: a root at 0x400000 is looked for at 0x400000000000. */
  lemma BigEndianTreeRoot(m: Memory, items: seq<Item>, objectid: u64, item: Item)
    requires Find(items, RootKey(objectid), false) == Some(item)
    requires Holds(m, item.data + ROOT_BYTENR, Store64(0x40_0000))
    ensures TreeRoot(m, items, objectid, true) == 0x4000_0000_0000
  {
    hide LastAtMost;
    var p := item.data + ROOT_BYTENR;
    var s := Store64(0x40_0000);
    assert s == [0, 0, 0x40, 0, 0, 0, 0, 0];
    hide Store64;
    assert m(p + 0) == s[0] && m(p + 1) == s[1] && m(p + 2) == s[2] && m(p + 3) == s[3];
    assert m(p + 4) == s[4] && m(p + 5) == s[5] && m(p + 6) == s[6] && m(p + 7) == s[7];
  }

  predicate IsRootItem(item: Item, objectid: u64) {
    item.key.objectid == objectid && item.key.itemType == ROOT_ITEM
  }

  /** The search does not look at the objectid and type of what it found: it found a root item
      of that tree, the one of greatest offset, if and only if there is one. Otherwise the bytes
      of some other item are taken for its address. */
  lemma TreeRootIff(items: seq<Item>, objectid: u64)
    requires SortedItems(items)
    ensures var found := Find(items, RootKey(objectid), false);
            && ((found.Some? && IsRootItem(found.value, objectid))
                <==> exists item :: item in items && IsRootItem(item, objectid))
            && (forall item :: item in items && IsRootItem(item, objectid) ==>
                  found.Some? && found.value in items && item.key.offset <= found.value.key.offset)
  {
    LastAtMostMeaning(items, RootKey(objectid));
    forall item | item in items && IsRootItem(item, objectid)
      ensures Find(items, RootKey(objectid), false).Some?
      ensures IsRootItem(Find(items, RootKey(objectid), false).value, objectid)
      ensures item.key.offset <= Find(items, RootKey(objectid), false).value.key.offset
    {
      var i :| 0 <= i < |items| && items[i] == item;
      assert AtMost(items[i].key, RootKey(objectid));
    }
  }

  /** With the root of tree 3 as the only item, the root of tree 5 is that of tree 3. */
  lemma WrongTreeRoot(m: Memory, data: nat, bigEndian: bool)
    ensures var items := [Item(Key(3, ROOT_ITEM, 0), data)];
            && !(exists item :: item in items && IsRootItem(item, 5))
            && Find(items, RootKey(5), false) == Find(items, RootKey(3), false) == Some(items[0])
            && TreeRoot(m, items, 5, bigEndian) == TreeRoot(m, items, 3, bigEndian)
               == Raw64(m, data + ROOT_BYTENR, bigEndian)
  {
    hide Raw64;
    var items := [Item(Key(3, ROOT_ITEM, 0), data)];
    assert items[1..] == [];
    assert LastAtMost(items[1..], RootKey(5)) == None && LastAtMost(items[1..], RootKey(3)) == None;
  }
}
