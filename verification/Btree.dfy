/** Tree nodes in the image, and the keyed descent of `btrfs_find_in_btree`. */
module Btree {
  import opened Bytes
  import opened Keys
  import opened Chunks
  import opened Trees

  // ---------------------------------------------------------------- nodes in the image

  const HEADER_SIZE := 101
  const NRITEMS_OFFSET := 96
  const LEVEL_OFFSET := 100

  const ITEM_SIZE := 25
  const ITEM_DATA_OFFSET := 17

  /** `struct btrfs_key_pointer` is not declared packed: with 64-bit fields aligned to eight
      bytes its block number is at 24 and its size is 40. */
  const POINTER_SIZE := 40
  const POINTER_BLOCKNR := 24

  /** The size of a key pointer in the format. */
  const PACKED_SIZE := 33

  function Nritems(m: Memory, p: nat): u32 { Load32(m, p + NRITEMS_OFFSET) }
  function NodeLevel(m: Memory, p: nat): byte { Load8(m, p + LEVEL_OFFSET) }

  function PointerBlocknr(m: Memory, p: nat, i: nat): u64 {
    Load64(m, p + HEADER_SIZE + i * POINTER_SIZE + POINTER_BLOCKNR)
  }

  function ItemData(m: Memory, p: nat, i: nat): nat {
    p + HEADER_SIZE + Load32(m, p + HEADER_SIZE + i * ITEM_SIZE + ITEM_DATA_OFFSET)
  }

  function PointerKeys(m: Memory, p: nat): seq<Key> {
    KeyArray(m, p + HEADER_SIZE, Nritems(m, p), 0, POINTER_SIZE)
  }

  function ItemKeys(m: Memory, p: nat): seq<Key> {
    KeyArray(m, p + HEADER_SIZE, Nritems(m, p), 0, ITEM_SIZE)
  }

  function Children(m: Memory, p: nat): (c: seq<nat>)
    ensures |c| == Nritems(m, p)
    ensures forall i :: 0 <= i < |c| ==> c[i] == PointerBlocknr(m, p, i)
  {
    seq(Nritems(m, p), i requires 0 <= i < Nritems(m, p) => PointerBlocknr(m, p, i))
  }

  function DataAddresses(m: Memory, p: nat): (d: seq<nat>)
    ensures |d| == Nritems(m, p)
    ensures forall i :: 0 <= i < |d| ==> d[i] == ItemData(m, p, i)
  {
    seq(Nritems(m, p), i requires 0 <= i < Nritems(m, p) => ItemData(m, p, i))
  }

  /** The node whose header is at physical address p. */
  function NodeAt(m: Memory, p: nat): Node {
    if NodeLevel(m, p) > 0 then Inner(NodeLevel(m, p), PointerKeys(m, p), Children(m, p))
    else Leaf(ItemKeys(m, p), DataAddresses(m, p))
  }

  function ReadNode(entries: seq<Entry>, m: Memory, a: nat): Option<Node> {
    match Resolve(entries, a)
    case At(p) => Some(NodeAt(m, p))
    case Unmapped => None
    case Fault => Some(Wild)
  }

  /** The trees of an image as seen through a chunk list. */
  function View(entries: seq<Entry>, m: Memory): Reader {
    (a: nat) => ReadNode(entries, m, a)
  }

  /** A key pointer as the format lays it out: packed, 33 bytes. */
  function StorePointer(key: Key, blocknr: u64, generation: u64): seq<byte> {
    StoreKey(key) + (Store64(blocknr) + Store64(generation))
  }

  lemma TopByte(low: nat, top: nat)
    requires low < 0x100_0000_0000_0000
    ensures (low + 0x100_0000_0000_0000 * top) / 0x100_0000_0000_0000 == top
    ensures (low + 0x100_0000_0000_0000 * top) % 0x100_0000_0000_0000 == low
  {}

  function Load56(m: Memory, p: nat): (v: nat)
    ensures v < 0x100_0000_0000_0000
  {
    Load32(m, p) + 0x1_0000_0000 * (Load16(m, p + 4) + 0x1_0000 * Load8(m, p + 6))
  }

  lemma Load64Parts(m: Memory, p: nat)
    ensures Load64(m, p) == Load56(m, p) + 0x100_0000_0000_0000 * Load8(m, p + 7)
    ensures Load64(m, p) == Load8(m, p) + 0x100 * Load56(m, p + 1)
  {}

  /** The eight bytes that start at the last byte of one field and end in the next. */
  lemma Shifted(m: Memory, p: nat)
    ensures Load64(m, p + 7) == Load64(m, p) / 0x100_0000_0000_0000 + 0x100 * (Load64(m, p + 8) % 0x100_0000_0000_0000)
  {
    hide Load64, Load56;
    Load64Parts(m, p);
    Load64Parts(m, p + 7);
    Load64Parts(m, p + 8);
    TopByte(Load56(m, p), Load8(m, p + 7));
    TopByte(Load56(m, p + 8), Load8(m, p + 15));
  }

  /** Because the structure is not packed, the first pointer of a node as the format lays it out
      yields its key, but for a block number the top byte of the block number followed by seven
      bytes of the generation. */
  lemma PackedPointerMisread(m: Memory, p: nat, key: Key, blocknr: u64, generation: u64)
    requires Holds(m, p + HEADER_SIZE, StorePointer(key, blocknr, generation))
    ensures RecordKey(m, p + HEADER_SIZE, 0, POINTER_SIZE, 0) == key
    ensures PointerBlocknr(m, p, 0) == blocknr <==>
              blocknr == blocknr / 0x100_0000_0000_0000 + 0x100 * (generation % 0x100_0000_0000_0000)
  {
    hide Load64, Store64, LoadKey, StoreKey;
    var q := p + HEADER_SIZE;
    HoldsSplit(m, q, StoreKey(key), Store64(blocknr) + Store64(generation));
    HoldsSplit(m, q + 17, Store64(blocknr), Store64(generation));
    LoadStoreKey(m, q, key);
    LoadStore64(m, q + 17, blocknr);
    LoadStore64(m, q + 25, generation);
    Shifted(m, q + 17);
  }

  /** An instance: the block number 0x1000 written in generation 1 is read as 0x100. */
  lemma PackedPointerInstance(m: Memory, p: nat, key: Key)
    requires Holds(m, p + HEADER_SIZE, StorePointer(key, 0x1000, 1))
    ensures PointerBlocknr(m, p, 0) == 0x100
  {
    hide Load64, Store64, LoadKey, StoreKey;
    var q := p + HEADER_SIZE;
    HoldsSplit(m, q, StoreKey(key), Store64(0x1000) + Store64(1));
    HoldsSplit(m, q + 17, Store64(0x1000), Store64(1));
    LoadStore64(m, q + 17, 0x1000);
    LoadStore64(m, q + 25, 1);
    Shifted(m, q + 17);
  }

  function Load48(m: Memory, p: nat): (v: nat)
    ensures v < 0x1_0000_0000_0000
  {
    Load32(m, p) + 0x1_0000_0000 * Load16(m, p + 4)
  }

  lemma Load64Split(m: Memory, p: nat)
    ensures Load64(m, p) == Load48(m, p) + 0x1_0000_0000_0000 * Load16(m, p + 6)
    ensures Load64(m, p) == Load8(m, p) + 0x100 * Load8(m, p + 1) + 0x1_0000 * Load48(m, p + 2)
    ensures Load16(m, p + 6) == Load8(m, p + 6) + 0x100 * Load8(m, p + 7)
  {}

  lemma ByteSix(low: nat, six: nat, seven: nat)
    requires low < 0x1_0000_0000_0000 && six < 0x100
    ensures (low + 0x1_0000_0000_0000 * (six + 0x100 * seven)) % 0x1_0000_0000_0000 == low
    ensures (low + 0x1_0000_0000_0000 * (six + 0x100 * seven)) / 0x1_0000_0000_0000 % 0x100 == six
  {}

  /** What the code takes for the key of the second pointer, when the second pointer of the node
      is `key` and leads to `blocknr`: its objectid is the top byte of the objectid, the type and
      six bytes of the offset, its type is the next byte of the offset, and its offset is the
      last byte of the offset and seven bytes of the block number. */
  function SecondKeyRead(key: Key, blocknr: u64): Key {
    Key(key.objectid / 0x100_0000_0000_0000 + 0x100 * key.itemType + 0x1_0000 * (key.offset % 0x1_0000_0000_0000),
        key.offset / 0x1_0000_0000_0000 % 0x100,
        key.offset / 0x100_0000_0000_0000 + 0x100 * (blocknr % 0x100_0000_0000_0000))
  }

  lemma SecondKeyParts(m: Memory, q: nat, key: Key, blocknr: u64)
    requires Load64(m, q) == key.objectid && Load8(m, q + 8) == key.itemType && Load64(m, q + 9) == key.offset
    requires Load64(m, q + 17) == blocknr
    ensures LoadKey(m, q + 7) == SecondKeyRead(key, blocknr)
  {
    hide Load64, Load48, Load56, Load16;
    Load64Parts(m, q);
    TopByte(Load56(m, q), Load8(m, q + 7));
    Load64Split(m, q + 7);
    Load64Split(m, q + 9);
    ByteSix(Load48(m, q + 9), Load8(m, q + 15), Load8(m, q + 16));
    Shifted(m, q + 9);
  }

  /** With the second pointer laid out as the format does, behind the first, its key is misread
      in this way. */
  lemma SecondPackedKeyMisread(m: Memory, p: nat, key: Key, blocknr: u64, generation: u64)
    requires Holds(m, p + HEADER_SIZE + 33, StorePointer(key, blocknr, generation))
    ensures RecordKey(m, p + HEADER_SIZE, 0, POINTER_SIZE, 1) == SecondKeyRead(key, blocknr)
  {
    hide Load64, Store64, Load8, Store8, SecondKeyRead;
    var q := p + HEADER_SIZE + 33;
    HoldsSplit(m, q, StoreKey(key), Store64(blocknr) + Store64(generation));
    HoldsSplit(m, q + 17, Store64(blocknr), Store64(generation));
    LoadStoreKey(m, q, key);
    LoadStore64(m, q + 17, blocknr);
    SecondKeyParts(m, q, key, blocknr);
  }

  /** An instance: the key (257, INODE_ITEM, 0) of a pointer to block 0x1000 is read as
      (256, 0, 0x100000). */
  lemma SecondPackedKeyInstance()
    ensures SecondKeyRead(Key(257, INODE_ITEM, 0), 0x1000) == Key(256, 0, 0x10_0000)
  {}

  /** Where the code expects the key and the block number of pointer i of the node at p, and
      where the format puts them. */
  function ExpectedPointer(p: nat, i: nat): nat { p + HEADER_SIZE + i * POINTER_SIZE }
  function PackedPointer(p: nat, i: nat): nat { p + HEADER_SIZE + i * PACKED_SIZE }

  /** For every pointer of a node as the format lays it out: its key is read right if and only if
      the bytes where it is expected happen to be those where it is, and so is its block number. */
  lemma PackedPointerIff(m: Memory, p: nat, i: nat, key: Key, blocknr: u64, generation: u64)
    requires Holds(m, PackedPointer(p, i), StorePointer(key, blocknr, generation))
    ensures RecordKey(m, p + HEADER_SIZE, 0, POINTER_SIZE, i) == key
       <==> EqualBytes(m, ExpectedPointer(p, i), PackedPointer(p, i), KEY_SIZE)
    ensures PointerBlocknr(m, p, i) == blocknr
       <==> EqualBytes(m, ExpectedPointer(p, i) + POINTER_BLOCKNR, PackedPointer(p, i) + KEY_SIZE, 8)
  {
    hide Load64, Store64, LoadKey, StoreKey;
    var q := PackedPointer(p, i);
    HoldsSplit(m, q, StoreKey(key), Store64(blocknr) + Store64(generation));
    HoldsSplit(m, q + KEY_SIZE, Store64(blocknr), Store64(generation));
    LoadStoreKey(m, q, key);
    LoadStore64(m, q + KEY_SIZE, blocknr);
    LoadKeySame(m, ExpectedPointer(p, i), q);
    Load64Same(m, ExpectedPointer(p, i) + POINTER_BLOCKNR, q + KEY_SIZE);
  }

  /** The header of a leaf item as the format lays it out is read as its key and the place of its data. */
  lemma LoadStoreItem(m: Memory, p: nat, i: nat, key: Key, offset: u32, size: u32)
    requires Holds(m, p + HEADER_SIZE + i * ITEM_SIZE, StoreKey(key) + (Store32(offset) + Store32(size)))
    ensures ItemAt(m, p, i) == Item(key, p + HEADER_SIZE + offset)
  {
    hide LoadKey, StoreKey, Load32, Store32;
    var q := p + HEADER_SIZE + i * ITEM_SIZE;
    HoldsSplit(m, q, StoreKey(key), Store32(offset) + Store32(size));
    HoldsSplit(m, q + KEY_SIZE, Store32(offset), Store32(size));
    LoadStoreKey(m, q, key);
    LoadStore32(m, q + KEY_SIZE, offset);
  }

  // ---------------------------------------------------------------- keyed search

  function NodeKeys(m: Memory, p: nat): (keys: seq<Key>)
    ensures |keys| == Nritems(m, p)
  {
    if NodeLevel(m, p) > 0 then PointerKeys(m, p) else ItemKeys(m, p)
  }

  /** Item i of a leaf. */
  function ItemAt(m: Memory, p: nat, i: nat): Item {
    Item(RecordKey(m, p + HEADER_SIZE, 0, ITEM_SIZE, i), ItemData(m, p, i))
  }

  /** `btrfs_binary_search`: the record layout depends on the level. */
  method SearchNode(m: Memory, p: nat, key: Key) returns (ret: int, result: nat)
    requires Sorted(NodeKeys(m, p))
    ensures var keys := NodeKeys(m, p);
            && -1 <= ret <= 1
            && (ret == -1 <==> forall i :: 0 <= i < |keys| ==> Less(key, keys[i]))
            && (ret >= 0 ==> result < |keys| && AtMost(keys[result], key) && (ret == 0 <==> keys[result] == key)
                             && forall i :: result < i < |keys| ==> Less(key, keys[i]))
  {
    hide KeyArray, Less;
    ghost var keys := NodeKeys(m, p);
    if NodeLevel(m, p) > 0 {
      ret, result := BinarySearch(m, p + HEADER_SIZE, Nritems(m, p), 0, POINTER_SIZE, key);
    } else {
      ret, result := BinarySearch(m, p + HEADER_SIZE, Nritems(m, p), 0, ITEM_SIZE, key);
    }
    if ret == 1 {
      LessTotal(keys[result], key);
    }
  }

  /** What well-formedness says of the node in the image. */
  lemma NodeShape(entries: seq<Entry>, m: Memory, a: nat, level: nat)
    requires TreeAt(View(entries, m), a, level)
    ensures Resolve(entries, a).At?
    ensures var p := Resolve(entries, a).addr;
            && NodeLevel(m, p) == level
            && Sorted(NodeKeys(m, p))
            && (level == 0 ==> Items(View(entries, m), a, 0) == LeafItems(NodeKeys(m, p), DataAddresses(m, p)))
            && (level > 0 ==> View(entries, m)(a) == Some(Inner(level, NodeKeys(m, p), Children(m, p))))
  {
    hide KeyArray, Children, DataAddresses, Sorted, Resolve;
  }

  lemma ViewRoot(entries: seq<Entry>, m: Memory, root: nat)
    ensures View(entries, m)(root).None? <==> Resolve(entries, root) == Unmapped
    ensures View(entries, m)(root).None? ==> TreeItems(View(entries, m), root) == []
  {}

  lemma LeafSearch(keys: seq<Key>, data: seq<nat>, key: Key, i: nat)
    requires |keys| == |data| && Sorted(keys)
    requires i < |keys| && AtMost(keys[i], key)
    requires forall j :: i < j < |keys| ==> Less(key, keys[j])
    ensures LastAtMost(LeafItems(keys, data), key) == Some(Item(keys[i], data[i]))
  {
    var items := LeafItems(keys, data);
    var before, after := items[..i + 1], items[i + 1..];
    assert items == before + after;
    assert before == items[..i] + [items[i]];
    hide Less, AtMost;
    LastAtMostAppend(before, after, key);
    NothingAtMost(after, key);
    LastAtMostAppend(items[..i], [items[i]], key);
  }

  lemma LeafMiss(keys: seq<Key>, data: seq<nat>, key: Key)
    requires |keys| == |data|
    requires forall j :: 0 <= j < |keys| ==> Less(key, keys[j])
    ensures LastAtMost(LeafItems(keys, data), key) == None
  {
    NothingAtMost(LeafItems(keys, data), key);
  }

  lemma LeafRecord(m: Memory, p: nat, i: nat)
    requires NodeLevel(m, p) == 0 && i < Nritems(m, p)
    ensures Item(NodeKeys(m, p)[i], DataAddresses(m, p)[i]) == ItemAt(m, p, i)
  {
    hide RecordKey, ItemData;
  }

  /** The state of the descent: at node `a` of the given level, whose header is at p, the
      subtree still holds the item that the whole tree holds at most the query. */
  ghost predicate OnPath(entries: seq<Entry>, m: Memory, key: Key, found: Option<Item>, a: nat, level: nat, p: nat) {
    var read := View(entries, m);
    && TreeAt(read, a, level)
    && Resolve(entries, a) == At(p)
    && (level > 0 ==> |Items(read, a, level)| > 0 && AtMost(Items(read, a, level)[0].key, key))
    && found == LastAtMost(Items(read, a, level), key)
  }

  lemma PathStart(entries: seq<Entry>, m: Memory, root: nat, key: Key)
    requires Searchable(View(entries, m), root, key)
    ensures var found := LastAtMost(TreeItems(View(entries, m), root), key);
            match Resolve(entries, root)
            case Fault => false
            case Unmapped => found == None
            case At(p) => OnPath(entries, m, key, found, root, Level(View(entries, m), root), p)
  {
    ViewRoot(entries, m, root);
    if View(entries, m)(root).Some? {
      NodeShape(entries, m, root, Level(View(entries, m), root));
    }
  }

  /** On the path the search in a node is well posed and, in an inner node, never returns -1. */
  lemma PathNode(entries: seq<Entry>, m: Memory, key: Key, found: Option<Item>, a: nat, level: nat, p: nat)
    requires OnPath(entries, m, key, found, a, level, p)
    ensures NodeLevel(m, p) == level
    ensures Sorted(NodeKeys(m, p))
    ensures level > 0 ==> !forall i :: 0 <= i < |NodeKeys(m, p)| ==> Less(key, NodeKeys(m, p)[i])
  {
    hide View, Less, Sorted, Items, TreeAt, LastAtMost, Resolve, NodeKeys;
    NodeShape(entries, m, a, level);
    if level > 0 {
      PointerExists(View(entries, m), a, level, key);
      var i :| 0 <= i < |NodeKeys(m, p)| && AtMost(NodeKeys(m, p)[i], key);
      LessTotal(NodeKeys(m, p)[i], key);
    }
  }

  lemma PathStep(entries: seq<Entry>, m: Memory, key: Key, found: Option<Item>, a: nat, level: nat, p: nat, i: nat)
    requires OnPath(entries, m, key, found, a, level, p) && level > 0
    requires i < |NodeKeys(m, p)| && AtMost(NodeKeys(m, p)[i], key)
    requires forall j :: i < j < |NodeKeys(m, p)| ==> Less(key, NodeKeys(m, p)[j])
    ensures var child := PointerBlocknr(m, p, i);
            && Resolve(entries, child).At?
            && OnPath(entries, m, key, found, child, level - 1, Resolve(entries, child).addr)
  {
    hide View, Less, AtMost, Sorted, Items, TreeAt, LastAtMost, Resolve, NodeKeys, PointerBlocknr;
    NodeShape(entries, m, a, level);
    Descend(View(entries, m), a, level, key, i);
    NodeShape(entries, m, PointerBlocknr(m, p, i), level - 1);
  }

  lemma PathEnd(entries: seq<Entry>, m: Memory, key: Key, found: Option<Item>, a: nat, p: nat, ret: int, i: nat)
    requires OnPath(entries, m, key, found, a, 0, p)
    requires ret == -1 <==> forall j :: 0 <= j < |NodeKeys(m, p)| ==> Less(key, NodeKeys(m, p)[j])
    requires ret != -1 ==> i < |NodeKeys(m, p)| && AtMost(NodeKeys(m, p)[i], key)
                           && (ret == 0 <==> NodeKeys(m, p)[i] == key)
                           && forall j :: i < j < |NodeKeys(m, p)| ==> Less(key, NodeKeys(m, p)[j])
    ensures ret == -1 ==> found == None
    ensures ret != -1 ==> found == Some(ItemAt(m, p, i)) && (ret == 0 <==> ItemAt(m, p, i).key == key)
  {
    hide View, Less, AtMost, Items, TreeAt, LastAtMost, Resolve, NodeKeys, ItemAt;
    NodeShape(entries, m, a, 0);
    if ret == -1 {
      LeafMiss(NodeKeys(m, p), DataAddresses(m, p), key);
    } else {
      LeafSearch(NodeKeys(m, p), DataAddresses(m, p), key, i);
      LeafRecord(m, p, i);
    }
  }

  /** The loop of `btrfs_find_in_btree`: down to a leaf, ignoring what the search returns. */
  method DescendToLeaf(list: ChunkList, m: Memory, root: nat, top: nat, key: Key,
                       ghost found: Option<Item>, ghost depth: nat)
    returns (p: nat, ghost a: nat)
    requires OnPath(Contents(list), m, key, found, root, depth, top)
    ensures OnPath(Contents(list), m, key, found, a, 0, p)
  {
    ghost var entries := Contents(list);
    ghost var level := depth;
    hide OnPath, View, Less, Sorted, Resolve, NodeKeys, PointerBlocknr;
    p := top;
    a := root;
    PathNode(entries, m, key, found, a, level, p);
    while NodeLevel(m, p) > 0
      invariant OnPath(entries, m, key, found, a, level, p)
      invariant NodeLevel(m, p) == level && Sorted(NodeKeys(m, p))
      decreases level
    {
      PathNode(entries, m, key, found, a, level, p);
      var ret, i := SearchNode(m, p, key);
      var blocknr := PointerBlocknr(m, p, i);
      PathStep(entries, m, key, found, a, level, p, i);
      a, level := blocknr, level - 1;
      var header := ResolveLogical(list, blocknr);
      p := header.value;
      PathNode(entries, m, key, found, a, level, p);
    }
  }

  /** `btrfs_find_in_btree`: the descent returns what linear search over the flattened tree
      returns, and nothing for an unmapped root. */
  method FindInBtree(list: ChunkList, m: Memory, root: nat, key: Key, exact: bool) returns (r: Option<Item>)
    requires Searchable(View(Contents(list), m), root, key)
    ensures r == Find(TreeItems(View(Contents(list), m), root), key, exact)
  {
    ghost var entries := Contents(list);
    ghost var found := LastAtMost(TreeItems(View(entries, m), root), key);
    ghost var depth := Level(View(entries, m), root);
    PathStart(entries, m, root, key);
    hide OnPath, View, TreeItems, Searchable, Less, Sorted, LastAtMost, Resolve, NodeKeys, ItemAt, Level;
    var header := ResolveLogical(list, root);
    if header.None? {
      return None;
    }
    var p; ghost var a;
    p, a := DescendToLeaf(list, m, root, header.value, key, found, depth);
    PathNode(entries, m, key, found, a, 0, p);
    var ret, i := SearchNode(m, p, key);
    PathEnd(entries, m, key, found, a, p, ret, i);
    if ret == 0 || (ret > 0 && !exact) {
      r := Some(ItemAt(m, p, i));
    } else {
      r := None;
    }
  }
}
