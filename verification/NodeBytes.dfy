/** Trees as the bytes of their nodes: an image that holds the nodes of a tree is read as exactly the
    items of its leaves. */
module NodeBytes {
  import opened Bytes
  import opened Keys
  import opened Chunks
  import opened Trees
  import opened Btree

  // ---------------------------------------------------------------- records in a row

  function StoreAll(parts: seq<seq<byte>>): seq<byte>
    decreases |parts|
  {
    if parts == [] then [] else parts[0] + StoreAll(parts[1..])
  }

  /** Of records of one size, written one behind the other, record i stands at i times the size. */
  lemma {:induction false} HoldsRecord(m: Memory, p: nat, parts: seq<seq<byte>>, size: nat, i: nat)
    requires forall j :: 0 <= j < |parts| ==> |parts[j]| == size
    requires Holds(m, p, StoreAll(parts)) && i < |parts|
    ensures Holds(m, p + i * size, parts[i])
    decreases i
  {
    hide Holds;
    HoldsSplit(m, p, parts[0], StoreAll(parts[1..]));
    if i > 0 {
      HoldsRecord(m, p + size, parts[1..], size, i - 1);
      assert p + size + (i - 1) * size == p + i * size;
    }
  }

  // ---------------------------------------------------------------- node headers

  /** The fields of a node header in front of the two that the reader uses. */
  datatype Prefix = Prefix(csum: seq<byte>, fsid: seq<byte>, bytenr: u64, flags: u64, uuid: seq<byte>,
                           generation: u64, owner: u64) {
    predicate Valid() { |csum| == 32 && |fsid| == 16 && |uuid| == 16 }
  }

  /** A node header as the format lays it out. */
  function StoreHeader(h: Prefix, nritems: u32, level: byte): (s: seq<byte>)
    requires h.Valid()
    ensures |s| == 101
  {
    h.csum + (h.fsid + (Store64(h.bytenr) + (Store64(h.flags) + (h.uuid
      + (Store64(h.generation) + (Store64(h.owner) + (Store32(nritems) + Store8(level))))))))
  }

  /** The reader finds the count and the level of a node. */
  lemma LoadStoreHeader(m: Memory, p: nat, h: Prefix, nritems: u32, level: byte)
    requires h.Valid() && Holds(m, p, StoreHeader(h, nritems, level))
    ensures Nritems(m, p) == nritems && NodeLevel(m, p) == level
  {
    hide Store64, Load32, Store32, Load8, Store8, Holds;
    var t7 := Store32(nritems) + Store8(level);
    var t6 := Store64(h.owner) + t7;
    var t5 := Store64(h.generation) + t6;
    var t4 := h.uuid + t5;
    var t3 := Store64(h.flags) + t4;
    var t2 := Store64(h.bytenr) + t3;
    HoldsSplit(m, p, h.csum, h.fsid + t2);
    HoldsSplit(m, p + 32, h.fsid, t2);
    HoldsSplit(m, p + 48, Store64(h.bytenr), t3);
    HoldsSplit(m, p + 56, Store64(h.flags), t4);
    HoldsSplit(m, p + 64, h.uuid, t5);
    HoldsSplit(m, p + 80, Store64(h.generation), t6);
    HoldsSplit(m, p + 88, Store64(h.owner), t7);
    HoldsSplit(m, p + 96, Store32(nritems), Store8(level));
    LoadStore32(m, p + 96, nritems);
    LoadStore8(m, p + 100, level);
  }

  // ---------------------------------------------------------------- leaves

  datatype ItemHead = ItemHead(key: Key, offset: u32, size: u32)

  function StoreItemHead(head: ItemHead): (s: seq<byte>)
    ensures |s| == 25
  {
    StoreKey(head.key) + (Store32(head.offset) + Store32(head.size))
  }

  function StoreItemHeads(heads: seq<ItemHead>): (parts: seq<seq<byte>>)
    ensures |parts| == |heads|
    ensures forall i :: 0 <= i < |parts| ==> parts[i] == StoreItemHead(heads[i]) && |parts[i]| == 25
  {
    seq(|heads|, i requires 0 <= i < |heads| => StoreItemHead(heads[i]))
  }

  function StoreLeaf(h: Prefix, heads: seq<ItemHead>): seq<byte>
    requires h.Valid() && |heads| < 0x1_0000_0000
  {
    StoreHeader(h, |heads|, 0) + StoreAll(StoreItemHeads(heads))
  }

  /** The items of a leaf at p: their data is addressed from the end of its header. */
  function HeadItems(p: nat, heads: seq<ItemHead>): (items: seq<Item>)
    ensures |items| == |heads|
    ensures forall i :: 0 <= i < |items| ==> items[i] == Item(heads[i].key, p + 101 + heads[i].offset)
  {
    seq(|heads|, i requires 0 <= i < |heads| => Item(heads[i].key, p + 101 + heads[i].offset))
  }

  lemma LeafNode(m: Memory, p: nat, h: Prefix, heads: seq<ItemHead>)
    requires h.Valid() && |heads| < 0x1_0000_0000 && Holds(m, p, StoreLeaf(h, heads))
    ensures NodeAt(m, p).Leaf? && |NodeAt(m, p).keys| == |NodeAt(m, p).data| == |heads|
    ensures forall i :: 0 <= i < |heads| ==> NodeAt(m, p).keys[i] == heads[i].key
    ensures LeafItems(NodeAt(m, p).keys, NodeAt(m, p).data) == HeadItems(p, heads)
  {
    hide Holds, StoreHeader, LoadKey, StoreKey, Load32, Store32, StoreAll, Load8;
    HoldsSplit(m, p, StoreHeader(h, |heads|, 0), StoreAll(StoreItemHeads(heads)));
    LoadStoreHeader(m, p, h, |heads|, 0);
    forall i | 0 <= i < |heads| ensures ItemAt(m, p, i) == Item(heads[i].key, p + 101 + heads[i].offset) {
      HoldsRecord(m, p + 101, StoreItemHeads(heads), 25, i);
      LoadStoreItem(m, p, i, heads[i].key, heads[i].offset, heads[i].size);
    }
    assert forall i :: 0 <= i < |heads| ==>
             NodeAt(m, p).keys[i] == ItemAt(m, p, i).key && NodeAt(m, p).data[i] == ItemAt(m, p, i).data;
  }

  /** A leaf that holds n item headers of 25 bytes behind its header of 101 is a tree of exactly
      these n items. */
  lemma LeafFromBytes(entries: seq<Entry>, m: Memory, a: nat, p: nat, h: Prefix, heads: seq<ItemHead>)
    requires h.Valid() && |heads| < 0x1_0000_0000
    requires Resolve(entries, a) == At(p) && Holds(m, p, StoreLeaf(h, heads))
    ensures TreeItems(View(entries, m), a) == HeadItems(p, heads)
  {
    hide Resolve, NodeAt, Holds, StoreLeaf;
    LeafNode(m, p, h, heads);
  }

  // ---------------------------------------------------------------- inner nodes

  /** A key pointer as the code expects it: seven bytes of padding keep the block number aligned. */
  datatype PointerHead = PointerHead(key: Key, padding: seq<byte>, blocknr: u64, generation: u64) {
    predicate Valid() { |padding| == 7 }
  }

  function StorePointerHead(head: PointerHead): (s: seq<byte>)
    requires head.Valid()
    ensures |s| == 40
  {
    StoreKey(head.key) + (head.padding + (Store64(head.blocknr) + Store64(head.generation)))
  }

  predicate ValidHeads(heads: seq<PointerHead>) {
    forall i :: 0 <= i < |heads| ==> heads[i].Valid()
  }

  function StorePointerHeads(heads: seq<PointerHead>): (parts: seq<seq<byte>>)
    requires ValidHeads(heads)
    ensures |parts| == |heads|
    ensures forall i :: 0 <= i < |parts| ==> parts[i] == StorePointerHead(heads[i]) && |parts[i]| == 40
  {
    seq(|heads|, i requires 0 <= i < |heads| => StorePointerHead(heads[i]))
  }

  function StoreInner(h: Prefix, level: byte, heads: seq<PointerHead>): seq<byte>
    requires h.Valid() && |heads| < 0x1_0000_0000 && ValidHeads(heads)
  {
    StoreHeader(h, |heads|, level) + StoreAll(StorePointerHeads(heads))
  }

  lemma LoadStorePointer(m: Memory, p: nat, i: nat, head: PointerHead)
    requires head.Valid() && Holds(m, p + 101 + i * 40, StorePointerHead(head))
    ensures RecordKey(m, p + 101, 0, 40, i) == head.key && PointerBlocknr(m, p, i) == head.blocknr
  {
    hide Holds, LoadKey, StoreKey, Load64, Store64;
    var q := p + 101 + i * 40;
    var t2 := Store64(head.blocknr) + Store64(head.generation);
    HoldsSplit(m, q, StoreKey(head.key), head.padding + t2);
    HoldsSplit(m, q + 17, head.padding, t2);
    HoldsSplit(m, q + 24, Store64(head.blocknr), Store64(head.generation));
    LoadStoreKey(m, q, head.key);
    LoadStore64(m, q + 24, head.blocknr);
  }

  function Blocknrs(heads: seq<PointerHead>): (nodes: seq<nat>)
    ensures |nodes| == |heads|
    ensures forall i :: 0 <= i < |nodes| ==> nodes[i] == heads[i].blocknr
  {
    seq(|heads|, i requires 0 <= i < |heads| => heads[i].blocknr)
  }

  function HeadKeys(heads: seq<PointerHead>): (keys: seq<Key>)
    ensures |keys| == |heads|
    ensures forall i :: 0 <= i < |keys| ==> keys[i] == heads[i].key
  {
    seq(|heads|, i requires 0 <= i < |heads| => heads[i].key)
  }

  /** An inner node that holds n pointers behind its header is read as these n keys and block numbers. */
  lemma InnerFromBytes(m: Memory, p: nat, h: Prefix, level: byte, heads: seq<PointerHead>)
    requires h.Valid() && |heads| < 0x1_0000_0000 && ValidHeads(heads) && level > 0
    requires Holds(m, p, StoreInner(h, level, heads))
    ensures NodeAt(m, p) == Inner(level, HeadKeys(heads), Blocknrs(heads))
  {
    hide Holds, StoreHeader, LoadKey, Load64, StorePointerHead, StoreAll, Load32, Load8;
    HoldsSplit(m, p, StoreHeader(h, |heads|, level), StoreAll(StorePointerHeads(heads)));
    LoadStoreHeader(m, p, h, |heads|, level);
    forall i | 0 <= i < |heads|
      ensures RecordKey(m, p + 101, 0, 40, i) == heads[i].key && PointerBlocknr(m, p, i) == heads[i].blocknr
    {
      HoldsRecord(m, p + 101, StorePointerHeads(heads), 40, i);
      LoadStorePointer(m, p, i, heads[i]);
    }
    hide RecordKey, PointerBlocknr;
    assert PointerKeys(m, p) == HeadKeys(heads);
    assert Children(m, p) == Blocknrs(heads);
  }

  // ---------------------------------------------------------------- whole trees

  /** A tree, as what its nodes hold. */
  datatype Tree =
    | LeafOf(h: Prefix, heads: seq<ItemHead>)
    | InnerOf(h: Prefix, level: byte, pointers: seq<PointerHead>, children: seq<Tree>)
  {
    function Height(): nat { if LeafOf? then 0 else level }
  }

  /** The image holds the nodes of the tree: this one at `a`, those below it at the block numbers of
      its pointers. */
  ghost predicate Laid(entries: seq<Entry>, m: Memory, a: nat, t: Tree)
    decreases t
  {
    && Resolve(entries, a).At?
    && t.h.Valid()
    && match t
       case LeafOf(h, heads) =>
         |heads| < 0x1_0000_0000 && Holds(m, Resolve(entries, a).addr, StoreLeaf(h, heads))
       case InnerOf(h, level, pointers, children) =>
         && level > 0
         && |pointers| == |children| < 0x1_0000_0000
         && ValidHeads(pointers)
         && Holds(m, Resolve(entries, a).addr, StoreInner(h, level, pointers))
         && forall i :: 0 <= i < |children| ==>
              children[i].Height() == level - 1 && Laid(entries, m, pointers[i].blocknr, children[i])
  }

  /** The items of the leaves, from left to right. */
  ghost function Flat(entries: seq<Entry>, a: nat, t: Tree): seq<Item>
    decreases t, 0
  {
    match t
    case LeafOf(_, heads) => if Resolve(entries, a).At? then HeadItems(Resolve(entries, a).addr, heads) else []
    case InnerOf(_, _, pointers, children) =>
      if |pointers| == |children| then FlatBelow(entries, Blocknrs(pointers), children) else []
  }

  ghost function FlatBelow(entries: seq<Entry>, nodes: seq<nat>, ts: seq<Tree>): seq<Item>
    requires |nodes| == |ts|
    decreases ts, 1
  {
    if ts == [] then [] else Flat(entries, nodes[0], ts[0]) + FlatBelow(entries, nodes[1..], ts[1..])
  }

  /** A tree at any depth is read as exactly the items of its leaves. */
  lemma {:induction false} TreeFromBytes(entries: seq<Entry>, m: Memory, a: nat, t: Tree)
    requires Laid(entries, m, a, t)
    ensures Level(View(entries, m), a) == t.Height()
    ensures Items(View(entries, m), a, t.Height()) == Flat(entries, a, t)
    ensures TreeItems(View(entries, m), a) == Flat(entries, a, t)
    decreases t, 0
  {
    hide Resolve, NodeAt, Holds, StoreLeaf, StoreInner, ValidHeads;
    match t
    case LeafOf(h, heads) =>
      LeafNode(m, Resolve(entries, a).addr, h, heads);
    case InnerOf(h, level, pointers, children) =>
      InnerFromBytes(m, Resolve(entries, a).addr, h, level, pointers);
      TreesFromBytes(entries, m, Blocknrs(pointers), children, level - 1);
  }

  lemma {:induction false} TreesFromBytes(entries: seq<Entry>, m: Memory, nodes: seq<nat>, ts: seq<Tree>, level: nat)
    requires |nodes| == |ts|
    requires forall i :: 0 <= i < |ts| ==> ts[i].Height() == level && Laid(entries, m, nodes[i], ts[i])
    ensures ItemsBelow(View(entries, m), nodes, level) == FlatBelow(entries, nodes, ts)
    decreases ts, 1
  {
    hide View, Laid;
    if ts != [] {
      TreeFromBytes(entries, m, nodes[0], ts[0]);
      TreesFromBytes(entries, m, nodes[1..], ts[1..], level);
    }
  }

  /** The rules of the format, in terms of what the nodes hold: keys ascend, an inner node has
      pointers, and each carries the smallest key below it, which ends before the next one's. */
  ghost predicate Proper(entries: seq<Entry>, a: nat, t: Tree)
    decreases t
  {
    match t
    case LeafOf(_, heads) => forall i, j :: 0 <= i < j < |heads| ==> Less(heads[i].key, heads[j].key)
    case InnerOf(_, _, pointers, children) =>
      && |pointers| == |children| > 0
      && (forall i, j :: 0 <= i < j < |pointers| ==> Less(pointers[i].key, pointers[j].key))
      && (forall i :: 0 <= i < |children| ==> Proper(entries, pointers[i].blocknr, children[i]))
      && (forall i :: 0 <= i < |children| ==>
            StartsAt(pointers, i, Flat(entries, pointers[i].blocknr, children[i])))
  }

  predicate StartsAt(pointers: seq<PointerHead>, i: nat, items: seq<Item>)
    requires i < |pointers|
  {
    && items != []
    && items[0].key == pointers[i].key
    && (i + 1 < |pointers| ==> Less(items[|items| - 1].key, pointers[i + 1].key))
  }

  /** The rules for one inner node, when those for its children are known. */
  lemma InnerProper(read: Reader, entries: seq<Entry>, a: nat, h: Prefix, level: byte, pointers: seq<PointerHead>,
                    children: seq<Tree>)
    requires |pointers| == |children| && level > 0
    requires read(a) == Some(Inner(level, HeadKeys(pointers), Blocknrs(pointers)))
    requires forall i :: 0 <= i < |children| ==>
               (TreeAt(read, pointers[i].blocknr, level - 1) <==> Proper(entries, pointers[i].blocknr, children[i]))
    requires forall i :: 0 <= i < |children| ==>
               Items(read, pointers[i].blocknr, level - 1) == Flat(entries, pointers[i].blocknr, children[i])
    ensures TreeAt(read, a, level) <==> Proper(entries, a, InnerOf(h, level, pointers, children))
  {
    hide Less, Items, Flat;
    var keys, nodes := HeadKeys(pointers), Blocknrs(pointers);
    assert Sorted(keys) <==> forall i, j :: 0 <= i < j < |pointers| ==> Less(pointers[i].key, pointers[j].key);
    forall i | 0 <= i < |children|
      ensures nodes[i] == pointers[i].blocknr
      ensures Bounded(Items(read, nodes[i], level - 1), keys, i)
         <==> StartsAt(pointers, i, Flat(entries, pointers[i].blocknr, children[i]))
    {}
    hide Sorted, Bounded, StartsAt, HeadKeys, Blocknrs;
  }

  /** The image holds a well-formed tree if and only if its nodes obey these rules. */
  lemma {:induction false} WellFormedIff(entries: seq<Entry>, m: Memory, a: nat, t: Tree)
    requires Laid(entries, m, a, t)
    ensures TreeAt(View(entries, m), a, t.Height()) <==> Proper(entries, a, t)
    ensures WellFormed(View(entries, m), a) <==> Proper(entries, a, t)
    decreases t
  {
    TreeFromBytes(entries, m, a, t);
    hide Resolve, NodeAt, Holds, StoreLeaf, StoreInner, ValidHeads, Less, Items, Flat;
    match t
    case LeafOf(h, heads) =>
      LeafNode(m, Resolve(entries, a).addr, h, heads);
    case InnerOf(h, level, pointers, children) =>
      InnerFromBytes(m, Resolve(entries, a).addr, h, level, pointers);
      assert View(entries, m)(a) == Some(Inner(level, HeadKeys(pointers), Blocknrs(pointers)));
      forall i | 0 <= i < |children|
        ensures TreeAt(View(entries, m), pointers[i].blocknr, level - 1)
           <==> Proper(entries, pointers[i].blocknr, children[i])
        ensures Items(View(entries, m), pointers[i].blocknr, level - 1)
             == Flat(entries, pointers[i].blocknr, children[i])
      {
        WellFormedIff(entries, m, pointers[i].blocknr, children[i]);
        TreeFromBytes(entries, m, pointers[i].blocknr, children[i]);
      }
      hide View, TreeAt, Proper, Level;
      InnerProper(View(entries, m), entries, a, h, level, pointers, children);
  }
}
