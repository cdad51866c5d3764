/** Reading file contents through the extent items of an inode. */
module FileRead {
  import opened Bytes
  import opened Errno
  import opened Keys
  import opened Chunks
  import opened Striping
  import opened Trees
  import opened Btree
  import opened Directory
  import Runs = ReadRuns

  const OFF_LIMIT: nat := 0x8000_0000_0000_0000
  const SIZE_LIMIT: nat := 0x1_0000_0000_0000_0000

  // ---------------------------------------------------------------- extents in the image

  const EXTENT_INLINE := 0
  const EXTENT_REG := 1
  const EXTENT_PREALLOC := 2

  /** Extents are taken to be uncompressed: `ram_bytes` is their length. */
  function RamBytes(m: Memory, p: nat): u64 { Load64(m, p + 8) }
  function ExtentType(m: Memory, p: nat): byte { Load8(m, p + 20) }
  function DiskBytenr(m: Memory, p: nat): u64 { Load64(m, p + 21) }

  /** The head of an extent item as the format lays it out: generation, ram_bytes, compression,
      encryption, other_encoding, type. */
  function StoreExtentHead(generation: u64, ramBytes: u64, compression: byte, encryption: byte, other: u16,
                           kind: byte): (s: seq<byte>)
    ensures |s| == 21
  {
    Store64(generation) + (Store64(ramBytes) + (Store8(compression) + (Store8(encryption)
      + (Store16(other) + Store8(kind)))))
  }

  lemma LoadStoreExtentHead(m: Memory, p: nat, generation: u64, ramBytes: u64, compression: byte, encryption: byte,
                            other: u16, kind: byte)
    requires Holds(m, p, StoreExtentHead(generation, ramBytes, compression, encryption, other, kind))
    ensures RamBytes(m, p) == ramBytes && ExtentType(m, p) == kind
  {
    hide Load64, Store64, Store16, Load8, Store8;
    StoreByteLength(compression);
    StoreByteLength(encryption);
    StoreByteLength(kind);
    var t4 := Store16(other) + Store8(kind);
    var t3 := Store8(encryption) + t4;
    var t2 := Store8(compression) + t3;
    HoldsSplit(m, p, Store64(generation), Store64(ramBytes) + t2);
    HoldsSplit(m, p + 8, Store64(ramBytes), t2);
    HoldsSplit(m, p + 16, Store8(compression), t3);
    HoldsSplit(m, p + 17, Store8(encryption), t4);
    HoldsSplit(m, p + 18, Store16(other), Store8(kind));
    LoadStore64(m, p + 8, ramBytes);
    LoadStore8(m, p + 20, kind);
  }

  /** An extent item is read back as its length, its kind and the address behind them. */
  lemma LoadStoreExtent(m: Memory, p: nat, generation: u64, ramBytes: u64, compression: byte, encryption: byte,
                        other: u16, kind: byte, diskBytenr: u64)
    requires Holds(m, p, StoreExtentHead(generation, ramBytes, compression, encryption, other, kind)
                         + Store64(diskBytenr))
    ensures RamBytes(m, p) == ramBytes && ExtentType(m, p) == kind && DiskBytenr(m, p) == diskBytenr
  {
    hide Load64, Store64, Load8, StoreExtentHead;
    HoldsSplit(m, p, StoreExtentHead(generation, ramBytes, compression, encryption, other, kind), Store64(diskBytenr));
    LoadStoreExtentHead(m, p, generation, ramBytes, compression, encryption, other, kind);
    LoadStore64(m, p + 21, diskBytenr);
  }

  /** Where an extent's bytes come from: the null source reads as zeros. */
  datatype Source = Null | From(addr: nat) | Invalid | Faulty

  /** The source that `__btrfs_low_read` settles on: it translates the start of the extent only. */
  function SourceOf(entries: seq<Entry>, m: Memory, p: nat): Source {
    if ExtentType(m, p) == EXTENT_INLINE then From(p + 21)
    else if ExtentType(m, p) == EXTENT_REG || ExtentType(m, p) == EXTENT_PREALLOC then
      DiskSource(entries, DiskBytenr(m, p))
    else Invalid
  }

  function DiskSource(entries: seq<Entry>, logical: nat): Source {
    if logical == 0 then Null
    else
      match Resolve(entries, logical)
      case At(a) => From(a)
      case Unmapped => Null
      case Fault => Faulty
  }

  function SourceByte(m: Memory, src: Source, i: nat): byte {
    if src.From? then m(src.addr + i) else 0
  }

  function Available(m: Memory, p: nat, length: nat, offset: nat): nat {
    if offset < RamBytes(m, p) then
      if offset + length > RamBytes(m, p) then RamBytes(m, p) - offset else length
    else 0
  }

  /** n bytes of the source, from the given offset on, stand at index `at`; the rest is as before. */
  ghost predicate Filled(m: Memory, src: Source, offset: nat, before: seq<byte>, after: seq<byte>, at: nat, n: nat) {
    && |after| == |before|
    && at + n <= |after|
    && forall i :: 0 <= i < |after| ==>
         after[i] == if at <= i < at + n then SourceByte(m, src, offset + (i - at)) else before[i]
  }

  /** The `memcpy` from the source, or the `memset` to zero without one; nothing for no bytes. */
  method CopyBytes(m: Memory, src: Source, offset: nat, buf: array<byte>, at: nat, count: nat)
    requires at + count <= buf.Length
    modifies buf
    ensures Filled(m, src, offset, old(buf[..]), buf[..], at, count)
  {
    if src.From? {
      forall i | 0 <= i < count { buf[at + i] := m(src.addr + (offset + i)); }
    } else {
      forall i | 0 <= i < count { buf[at + i] := 0; }
    }
  }

  /** `__btrfs_low_read`: `length` bytes of one extent from `offset` on, to `buf` at index `at`.
      The lengths of C objects and files keep the sum of the two within 64 bits. */
  method ReadExtent(list: ChunkList, m: Memory, p: nat, buf: array<byte>, at: nat, length: nat, offset: nat)
    returns (ret: int)
    requires at + length <= buf.Length < OFF_LIMIT
    requires offset < OFF_LIMIT
    requires SourceOf(Contents(list), m, p) != Faulty
    modifies buf
    ensures SourceOf(Contents(list), m, p) == Invalid ==> ret == -22 && buf[..] == old(buf[..])
    ensures SourceOf(Contents(list), m, p) != Invalid ==>
              var n := Available(m, p, length, offset);
              ret == Runs.ToInt(n) && Filled(m, SourceOf(Contents(list), m, p), offset, old(buf[..]), buf[..], at, n)
  {
    hide Resolve, Load64, Filled;
    var srcLength := RamBytes(m, p);
    var src: Option<nat> := None;
    if ExtentType(m, p) == EXTENT_INLINE {
      src := Some(p + 21);
    } else if ExtentType(m, p) == EXTENT_REG || ExtentType(m, p) == EXTENT_PREALLOC {
      var diskBytenr := DiskBytenr(m, p);
      if diskBytenr == 0 {
        src := None;
      } else {
        src := ResolveLogical(list, diskBytenr);
      }
    } else {
      return EINVAL;
    }
    var count := length;
    if offset < srcLength {
      if (offset + count) % SIZE_LIMIT > srcLength {
        count := srcLength - offset;
      }
    } else {
      count := 0;
    }
    CopyBytes(m, if src.Some? then From(src.value) else Null, offset, buf, at, count);
    ret := Runs.ToInt(count);
  }

  // ---------------------------------------------------------------- the file as a byte sequence

  predicate IsExtent(item: Item, inode: u64) {
    item.key.objectid == inode && item.key.itemType == EXTENT_DATA
  }

  function Extents(items: seq<Item>, inode: u64): seq<Item>
    decreases |items|
  {
    if items == [] then []
    else if IsExtent(items[0], inode) then [items[0]] + Extents(items[1..], inode)
    else Extents(items[1..], inode)
  }

  /** Byte i of an extent, translated at its own logical address. */
  function ExtentByte(entries: seq<Entry>, m: Memory, p: nat, i: nat): byte {
    if ExtentType(m, p) == EXTENT_INLINE then m(p + 21 + i)
    else DiskByte(entries, m, DiskBytenr(m, p), i)
  }

  function DiskByte(entries: seq<Entry>, m: Memory, logical: nat, i: nat): byte {
    if logical == 0 then 0
    else
      match Resolve(entries, logical + i)
      case At(a) => m(a)
      case _ => 0
  }

  /** The bytes of extents by address and index: as they are stored, and as `__btrfs_low_read`
      serves them. */
  type ExtentBytes = (nat, nat) -> byte

  function StoredBytes(entries: seq<Entry>, m: Memory): ExtentBytes {
    (p: nat, i: nat) => ExtentByte(entries, m, p, i)
  }

  function ServedBytes(entries: seq<Entry>, m: Memory): ExtentBytes {
    (p: nat, i: nat) => SourceByte(m, SourceOf(entries, m, p), i)
  }

  function ExtentContent(bytes: ExtentBytes, m: Memory, p: nat): (s: seq<byte>)
    ensures |s| == RamBytes(m, p)
  {
    seq(RamBytes(m, p), i requires 0 <= i < RamBytes(m, p) => bytes(p, i))
  }

  /** The contents of a file from a place on: its extents, each at its own offset, and zeros
      where there is none. */
  function ContentFrom(bytes: ExtentBytes, m: Memory, extents: seq<Item>, from: nat): seq<byte>
    decreases |extents|
  {
    if extents == [] then []
    else
      Zeros(from, extents[0].key.offset)
      + ExtentContent(bytes, m, extents[0].data)
      + ContentFrom(bytes, m, extents[1..], extents[0].key.offset + RamBytes(m, extents[0].data))
  }

  function Zeros(from: nat, to: nat): (s: seq<byte>)
    ensures |s| == if from <= to then to - from else 0
    ensures forall i :: 0 <= i < |s| ==> s[i] == 0
  {
    seq(if from <= to then to - from else 0, _ => 0)
  }

  /** The contents of the file, and what the reader serves for them. */
  function Content(entries: seq<Entry>, m: Memory, extents: seq<Item>): seq<byte> {
    ContentFrom(StoredBytes(entries, m), m, extents, 0)
  }

  function Served(entries: seq<Entry>, m: Memory, extents: seq<Item>): seq<byte> {
    ContentFrom(ServedBytes(entries, m), m, extents, 0)
  }

  function SpanOf(m: Memory, extent: Item): Runs.Span {
    Runs.Span(extent.key.offset, RamBytes(m, extent.data), ExtentType(m, extent.data) <= EXTENT_PREALLOC)
  }

  /** The parts of the file that the extents cover. */
  function Spans(m: Memory, extents: seq<Item>): (spans: seq<Runs.Span>)
    ensures |spans| == |extents|
    ensures forall i :: 0 <= i < |spans| ==> spans[i] == SpanOf(m, extents[i])
  {
    seq(|extents|, i requires 0 <= i < |extents| => SpanOf(m, extents[i]))
  }

  /** The extent is of a known kind and lies in one piece on the device. */
  ghost predicate Contiguous(entries: seq<Entry>, m: Memory, p: nat) {
    && ExtentType(m, p) <= EXTENT_PREALLOC
    && (ExtentType(m, p) != EXTENT_INLINE && DiskBytenr(m, p) != 0 ==>
      Adjacent(entries, DiskBytenr(m, p), RamBytes(m, p)))
  }

  ghost predicate Adjacent(entries: seq<Entry>, logical: nat, length: nat) {
    Resolve(entries, logical) != Fault && forall i: nat :: i < length ==> Follows(entries, logical, i)
  }

  predicate Follows(entries: seq<Entry>, logical: nat, i: nat) {
    Resolve(entries, logical + i) == match Resolve(entries, logical) case At(a) => At(a + i) case other => other
  }

  lemma ContiguousSource(entries: seq<Entry>, m: Memory, p: nat, i: nat)
    requires Contiguous(entries, m, p) && i < RamBytes(m, p)
    ensures SourceOf(entries, m, p) != Invalid && SourceOf(entries, m, p) != Faulty
    ensures SourceByte(m, SourceOf(entries, m, p), i) == ExtentByte(entries, m, p, i)
  {
    hide Resolve;
    assert ExtentType(m, p) != EXTENT_INLINE && DiskBytenr(m, p) != 0 ==> Follows(entries, DiskBytenr(m, p), i);
  }

  /** Where a chunk keeps an extent in one piece: a chunk of one stripe, or one stripe unit. */
  lemma AdjacentInChunk(entries: seq<Entry>, e: Entry, logical: nat, length: nat)
    requires Governs(entries, e)
    requires length > 0 && Covers(e, logical) && Covers(e, logical + length - 1)
    requires ResolveIn(e, logical) != Fault
    requires e.chunk.numStripes == 1
             || (logical - e.key.offset) / e.chunk.stripeLen == (logical +
               length - 1 - e.key.offset) / e.chunk.stripeLen
    ensures Adjacent(entries, logical, length)
  {
    var offset := logical - e.key.offset;
    hide Resolve;
    assert Resolve(entries, logical) == ResolveStripe(e, offset);
    forall i: nat | i < length ensures Follows(entries, logical, i) {
      if e.chunk.numStripes != 1 {
        SameUnit(offset, i, length - 1, e.chunk.stripeLen) by { StripeLenPositive(e, offset); }
      }
      ContiguousInUnit(e, offset, i);
      hide ResolveStripe;
      assert Covers(e, logical + i);
      assert Resolve(entries, logical + i) == ResolveStripe(e, offset + i);
    }
  }

  lemma StripeLenPositive(e: Entry, offset: nat)
    requires ResolveStripe(e, offset) != Fault
    ensures e.chunk.stripeLen > 0
  {}

  // ---------------------------------------------------------------- bytes of striped extents

  /** In this image byte i of the run comes out as the byte at its own logical address. */
  predicate SameByte(entries: seq<Entry>, m: Memory, logical: nat, i: nat) {
    SourceByte(m, DiskSource(entries, logical), i) == DiskByte(entries, m, logical, i)
  }

  /** An image with a single byte that is not zero. */
  function Spot(a: nat): Memory {
    (p: nat) => if p == a then 1 else 0
  }

  lemma DiskAt(entries: seq<Entry>, e: Entry, logical: nat, i: nat, m: Memory)
    requires Governs(entries, e) && Complete(e)
    requires e.key.offset <= logical && 0 < logical && logical - e.key.offset + i < e.chunk.length
    ensures ResolveStripe(e, logical - e.key.offset).At? && ResolveStripe(e, logical - e.key.offset + i).At?
    ensures DiskSource(entries, logical) == From(ResolveStripe(e, logical - e.key.offset).addr)
    ensures DiskByte(entries, m, logical, i) == m(ResolveStripe(e, logical - e.key.offset + i).addr)
  {
    var offset := logical - e.key.offset;
    ResolvedPlace(e, offset);
    ResolvedPlace(e, offset + i);
    hide ResolveStripe, Complete, Resolve;
    assert Covers(e, logical) && Covers(e, logical + i);
    assert Resolve(entries, logical) == ResolveStripe(e, offset);
    assert Resolve(entries, logical + i) == ResolveStripe(e, offset + i);
  }

  /** Translating only the start of a run gives the right bytes, on every image, if and only if
      the run is in one piece. */
  lemma BytesIffInPiece(entries: seq<Entry>, e: Entry, logical: nat, length: nat)
    requires Governs(entries, e) && Complete(e) && e.key.offset <= logical && 0 < logical
    requires logical - e.key.offset + length <= e.chunk.length
    ensures var offset := logical - e.key.offset;
            (forall m: Memory, i: nat :: i < length ==> SameByte(entries, m, logical, i))
            <==> forall i: nat :: i < length ==> InPiece(e, offset, i)
  {
    var offset := logical - e.key.offset;
    hide ResolveStripe, Complete, DiskSource, DiskByte;
    forall m: Memory, i: nat | i < length && InPiece(e, offset, i) ensures SameByte(entries, m, logical, i) {
      DiskAt(entries, e, logical, i, m);
    }
    if i: nat :| i < length && !InPiece(e, offset, i) {
      var a := ResolveStripe(e, offset);
      DiskAt(entries, e, logical, i, Spot(0));
      var m := Spot(a.addr + i);
      DiskAt(entries, e, logical, i, m);
      assert !SameByte(entries, m, logical, i);
    }
  }

  /** In a chunk of several stripes and rows `__btrfs_low_read` gives the right bytes of an extent,
      on every image, if and only if the extent lies in one stripe unit. */
  lemma StripedBytesIff(entries: seq<Entry>, e: Entry, logical: nat, length: nat)
    requires Governs(entries, e) && StripesApart(e) && e.chunk.numStripes >= 2 && Share(e) >= 2 * e.chunk.stripeLen
    requires e.key.offset <= logical && 0 < logical
    requires length > 0 && logical - e.key.offset + length <= e.chunk.length
    ensures (forall m: Memory, i: nat :: i < length ==> SameByte(entries, m, logical, i))
       <==> (logical - e.key.offset) / e.chunk.stripeLen == (logical - e.key.offset + length - 1) / e.chunk.stripeLen
  {
    hide ResolveStripe, Complete, SameByte, Share, InPiece;
    BytesIffInPiece(entries, e, logical, length);
    StripedExtentIff(e, logical - e.key.offset, length);
  }

  /** In a chunk of a single row it does so if and only if the areas of the touched stripes
      follow each other on the device. */
  lemma OneRowBytesIff(entries: seq<Entry>, e: Entry, logical: nat, length: nat)
    requires Governs(entries, e) && Complete(e) && e.chunk.length == e.chunk.numStripes * e.chunk.stripeLen
    requires e.key.offset <= logical && 0 < logical
    requires length > 0 && logical - e.key.offset + length <= e.chunk.length
    ensures (forall m: Memory, i: nat :: i < length ==> SameByte(entries, m, logical, i))
       <==> AreasFollow(e, (logical - e.key.offset) / e.chunk.stripeLen,
                        (logical - e.key.offset + length - 1) / e.chunk.stripeLen)
  {
    Positive(e);
    hide ResolveStripe, Complete, SameByte, InPiece, AreasFollow;
    BytesIffInPiece(entries, e, logical, length);
    OneRowExtentIff(e, logical - e.key.offset, length);
  }

  /** An extent of 8 KiB across the end of the first unit of three stripes reads wrong on some image. */
  lemma AcrossUnitEndMisread(uuid: seq<byte>)
    ensures exists m: Memory, i: nat :: i < 0x2000 && !SameByte([ThreeStripes(uuid)], m, 0xF000, i)
  {
    var e := ThreeStripes(uuid);
    ThreeStripesApart(uuid);
    assert e.chunk.length == 0x60000 && e.key.offset == 0;
    AcrossUnitEnd(uuid);
    MembersGovern([e], e);
    hide ResolveStripe, Complete, SameByte, InPiece, ThreeStripes;
    BytesIffInPiece([e], e, 0xF000, 0x2000);
  }

  // ---------------------------------------------------------------- finding the extent of an offset

  lemma {:induction false} ExtentsMeaning(items: seq<Item>, inode: u64, item: Item)
    ensures item in Extents(items, inode) <==> item in items && IsExtent(item, inode)
    ensures IsExtent(item, inode) <==> item.key.objectid == inode && item.key.itemType == 108
    decreases |items|
  {
    if items != [] {
      ExtentsMeaning(items[1..], inode, item);
      assert items == [items[0]] + items[1..];
    }
  }

  function ExtentKey(inode: u64, offset: u64): Key { Key(inode, EXTENT_DATA, offset) }

  lemma {:induction false} ExtentsSorted(items: seq<Item>, inode: u64)
    requires SortedItems(items)
    ensures var extents := Extents(items, inode);
            forall j, k :: 0 <= j < k < |extents| ==> extents[j].key.offset < extents[k].key.offset
    decreases |items|
  {
    hide Less;
    if items != [] {
      ExtentsSorted(items[1..], inode);
      if IsExtent(items[0], inode) {
        var rest := Extents(items[1..], inode);
        forall k | 0 <= k < |rest| ensures items[0].key.offset < rest[k].key.offset {
          ExtentsMeaning(items[1..], inode, rest[k]);
          var i :| 0 <= i < |items[1..]| && items[1..][i] == rest[k];
          assert items[i + 1] == rest[k];
          LessInOffset(items[0].key, rest[k].key);
        }
      }
    }
  }

  lemma LessInOffset(a: Key, b: Key)
    requires a.objectid == b.objectid && a.itemType == b.itemType
    ensures Less(a, b) <==> a.offset < b.offset
  {}

  /** The search for an offset finds the last extent that starts at or before it. */
  lemma FindsExtent(m: Memory, items: seq<Item>, inode: u64, offset: u64) returns (k: nat)
    requires SortedItems(items) && !Runs.Missing(Spans(m, Extents(items, inode)), offset)
    ensures var extents := Extents(items, inode);
            && k < |extents|
            && Find(items, ExtentKey(inode, offset), false) == Some(extents[k])
            && IsExtent(extents[k], inode)
            && extents[k].key.offset <= offset
            && (k + 1 < |extents| ==> offset < extents[k + 1].key.offset)
  {
    hide RamBytes, ExtentType, Extents, SortedItems, LastAtMost, Less;
    var extents, key := Extents(items, inode), ExtentKey(inode, offset);
    LastAtMostMeaning(items, key);
    ExtentsMeaning(items, inode, extents[0]);
    var i :| 0 <= i < |items| && items[i] == extents[0];
    LessInOffset(extents[0].key, key);
    LessTotal(extents[0].key, key);
    var found := LastAtMost(items, key).value;
    LessTotal(extents[0].key, found.key);
    InOneFile(extents[0].key, found.key, key);
    ExtentsMeaning(items, inode, found);
    k :| 0 <= k < |extents| && extents[k] == found;
    if k + 1 < |extents| {
      ExtentsSorted(items, inode);
      ExtentsMeaning(items, inode, extents[k + 1]);
      var j :| 0 <= j < |items| && items[j] == extents[k + 1];
      LessInOffset(found.key, extents[k + 1].key);
      LessInOffset(extents[k + 1].key, key);
      LessTotal(extents[k + 1].key, found.key);
    }
  }

  lemma InOneFile(low: Key, mid: Key, high: Key)
    requires AtMost(low, mid) && AtMost(mid, high)
    requires low.objectid == high.objectid && low.itemType == high.itemType
    ensures mid.objectid == low.objectid && mid.itemType == low.itemType && mid.offset <= high.offset
  {}

  /** In front of the first extent of a file, or in a file without extents, the search never
      gives an extent of that file, whatever precedes the key in the tree. */
  lemma FindsNoExtent(m: Memory, items: seq<Item>, inode: u64, offset: u64)
    requires SortedItems(items) && Runs.Missing(Spans(m, Extents(items, inode)), offset)
    ensures var found := Find(items, ExtentKey(inode, offset), false);
            found.Some? ==> !IsExtent(found.value, inode)
  {
    hide RamBytes, Extents;
    LastAtMostMeaning(items, ExtentKey(inode, offset));
    ExtentsSorted(items, inode);
    assert forall item :: item in Extents(items, inode) ==> offset < item.key.offset;
    var found := Find(items, ExtentKey(inode, offset), false);
    if found.Some? {
      ExtentsMeaning(items, inode, found.value);
    }
  }

  // ---------------------------------------------------------------- contents by offset

  lemma SpansTail(m: Memory, extents: seq<Item>)
    requires Runs.Ordered(Spans(m, extents)) && extents != []
    ensures Spans(m, extents)[1..] == Spans(m, extents[1..])
    ensures Runs.Ordered(Spans(m, extents[1..]))
    ensures |extents| > 1 ==> Spans(m, extents)[0].End() <= extents[1].key.offset
                              && Runs.SizeOf(Spans(m, extents[1..])) == Runs.SizeOf(Spans(m, extents))
  {
    hide RamBytes;
    assert Spans(m, extents)[1..] == Spans(m, extents[1..]);
    Runs.TailOrdered(Spans(m, extents));
  }

  lemma {:induction false} ContentSize(bytes: ExtentBytes, m: Memory, extents: seq<Item>, from: nat)
    requires Runs.Ordered(Spans(m, extents)) && extents != [] && from <= extents[0].key.offset
    ensures |ContentFrom(bytes, m, extents, from)| == Runs.SizeOf(Spans(m, extents)) - from
    decreases |extents|
  {
    hide RamBytes, ExtentContent, Runs.Ordered;
    SpansTail(m, extents);
    if |extents| > 1 {
      ContentSize(bytes, m, extents[1..], extents[0].key.offset + RamBytes(m, extents[0].data));
    } else {
      assert ContentFrom(bytes, m, extents[1..], extents[0].key.offset + RamBytes(m, extents[0].data)) == [];
    }
  }

  /** The contents from a place on: zeros up to the first extent, that extent, and the rest. */
  function FirstContent(bytes: ExtentBytes, m: Memory, extents: seq<Item>, from: nat): (s: seq<byte>)
    requires extents != []
    ensures from <= extents[0].key.offset ==> |s| == extents[0].key.offset - from + RamBytes(m, extents[0].data)
  {
    Zeros(from, extents[0].key.offset) + ExtentContent(bytes, m, extents[0].data)
  }

  lemma FirstContentAt(bytes: ExtentBytes, m: Memory, extents: seq<Item>, from: nat, i: nat)
    requires extents != [] && from <= extents[0].key.offset && i < |FirstContent(bytes, m, extents, from)|
    ensures var gap := extents[0].key.offset - from;
            FirstContent(bytes, m, extents, from)[i] == if i < gap then 0 else bytes(extents[0].data, i - gap)
  {
    hide RamBytes;
  }

  lemma ContentAppend(bytes: ExtentBytes, m: Memory, extents: seq<Item>, from: nat)
    requires extents != []
    ensures ContentFrom(bytes, m, extents, from)
         == FirstContent(bytes, m, extents, from)
            + ContentFrom(bytes, m, extents[1..], extents[0].key.offset + RamBytes(m, extents[0].data))
  {
    hide RamBytes, ExtentContent, Zeros;
  }

  lemma {:induction false} ContentAt(bytes: ExtentBytes, m: Memory, extents: seq<Item>, from: nat, k: nat, i: nat)
    requires Runs.Ordered(Spans(m, extents)) && extents != [] && from <= extents[0].key.offset
    requires k < |extents| && i < RamBytes(m, extents[k].data)
    ensures from <= extents[k].key.offset
    ensures var at := extents[k].key.offset - from + i;
            && at < |ContentFrom(bytes, m, extents, from)|
            && ContentFrom(bytes, m, extents, from)[at] == bytes(extents[k].data, i)
    decreases k
  {
    hide RamBytes, ExtentType, Runs.Ordered, ContentFrom, FirstContent;
    ContentAppend(bytes, m, extents, from);
    if k == 0 {
      FirstContentAt(bytes, m, extents, from, extents[0].key.offset - from + i);
    } else {
      SpansTail(m, extents);
      hide Spans;
      ContentAt(bytes, m, extents[1..], extents[0].key.offset + RamBytes(m, extents[0].data), k - 1, i);
    }
  }

  /** Where no extent covers the file, its contents are zero. */
  lemma {:induction false} GapIsZero(bytes: ExtentBytes, m: Memory, extents: seq<Item>, from: nat, a: nat)
    requires Runs.Ordered(Spans(m, extents)) && extents != [] && from <= extents[0].key.offset
    requires from <= a < Runs.SizeOf(Spans(m, extents))
    requires forall k :: 0 <= k < |extents| ==> !Runs.Within(SpanOf(m, extents[k]), a)
    ensures a - from < |ContentFrom(bytes, m, extents, from)|
    ensures ContentFrom(bytes, m, extents, from)[a - from] == 0
    decreases |extents|
  {
    hide RamBytes, ExtentType, Runs.Ordered, ContentFrom, FirstContent;
    ContentSize(bytes, m, extents, from);
    ContentAppend(bytes, m, extents, from);
    assert !Runs.Within(SpanOf(m, extents[0]), a);
    if a < extents[0].key.offset {
      FirstContentAt(bytes, m, extents, from, a - from);
    } else {
      SpansTail(m, extents);
      hide Spans;
      GapIsZero(bytes, m, extents[1..], extents[0].key.offset + RamBytes(m, extents[0].data), a);
    }
  }

  /** The reader serves the contents of the file if and only if it serves every byte of every
      extent as it is stored. */
  lemma {:induction false} ServedIff(entries: seq<Entry>, m: Memory, extents: seq<Item>)
    requires Runs.Ordered(Spans(m, extents))
    ensures Served(entries, m, extents) == Content(entries, m, extents)
       <==> forall k, i: nat :: 0 <= k < |extents| && i < RamBytes(m, extents[k].data) ==>
              ServedRight(entries, m, extents[k].data, i)
  {
    hide RamBytes, SourceOf, SourceByte, ExtentByte, ContentFrom, Runs.Ordered;
    var served, stored := ServedBytes(entries, m), StoredBytes(entries, m);
    forall k, i: nat | 0 <= k < |extents| && i < RamBytes(m, extents[k].data)
      ensures Served(entries, m, extents) == Content(entries, m, extents) ==>
                ServedRight(entries, m, extents[k].data, i)
    {
      ContentAt(served, m, extents, 0, k, i);
      ContentAt(stored, m, extents, 0, k, i);
    }
    if forall k, i: nat :: 0 <= k < |extents| && i < RamBytes(m, extents[k].data) ==>
         ServedRight(entries, m, extents[k].data, i)
    {
      SameContent(entries, m, extents, 0);
    }
  }

  predicate ServedRight(entries: seq<Entry>, m: Memory, p: nat, i: nat) {
    SourceByte(m, SourceOf(entries, m, p), i) == ExtentByte(entries, m, p, i)
  }

  lemma {:induction false} SameContent(entries: seq<Entry>, m: Memory, extents: seq<Item>, from: nat)
    requires forall k, i: nat :: 0 <= k < |extents| && i < RamBytes(m, extents[k].data) ==>
               ServedRight(entries, m, extents[k].data, i)
    ensures ContentFrom(ServedBytes(entries, m), m, extents, from)
         == ContentFrom(StoredBytes(entries, m), m, extents, from)
    decreases |extents|
  {
    hide RamBytes, SourceOf, SourceByte, ExtentByte;
    if extents != [] {
      var p := extents[0].data;
      assert ExtentContent(ServedBytes(entries, m), m, p) == ExtentContent(StoredBytes(entries, m), m, p) by {
        forall i: nat | i < RamBytes(m, p) ensures ServedBytes(entries, m)(p, i) == StoredBytes(entries, m)(p, i) {
          assert ServedRight(entries, m, p, i);
        }
      }
      assert forall k :: 0 <= k < |extents| - 1 ==> extents[1..][k] == extents[k + 1];
      SameContent(entries, m, extents[1..], extents[0].key.offset + RamBytes(m, p));
    }
  }

  /** In a file whose extents lie in one piece each it does. */
  lemma ContiguousServed(entries: seq<Entry>, m: Memory, extents: seq<Item>)
    requires forall k :: 0 <= k < |extents| ==> Contiguous(entries, m, extents[k].data)
    ensures Served(entries, m, extents) == Content(entries, m, extents)
  {
    hide RamBytes, SourceOf, SourceByte, ExtentByte, Contiguous, ContentFrom;
    forall k, i: nat | 0 <= k < |extents| && i < RamBytes(m, extents[k].data)
      ensures ServedRight(entries, m, extents[k].data, i)
    {
      ContiguousSource(entries, m, extents[k].data, i);
    }
    SameContent(entries, m, extents, 0);
  }

  // ---------------------------------------------------------------- btrfs_low_read

  /** The extents of the inode are not empty and do not overlap, and do not start in a stripe that
      the chunk list has lost; the size is a file size. There may be gaps between them, they may
      cross stripe units, and their kinds may be unknown. */
  ghost predicate FileOk(entries: seq<Entry>, m: Memory, extents: seq<Item>) {
    && Runs.Ordered(Spans(m, extents))
    && Runs.SizeOf(Spans(m, extents)) < OFF_LIMIT
    && forall k :: 0 <= k < |extents| ==> SourceOf(entries, m, extents[k].data) != Faulty
  }

  predicate Supplies(m: Memory, src: Source, within: nat, content: seq<byte>, offset: nat, i: nat) {
    offset + i < |content| && SourceByte(m, src, within + i) == content[offset + i]
  }

  /** One round of the loop: it takes its bytes from the span that holds the offset, and serves
      them in their place. */
  lemma Round(entries: seq<Entry>, m: Memory, extents: seq<Item>, k: nat, offset: nat, length: nat)
    requires FileOk(entries, m, extents) && k < |extents|
    requires extents[k].key.offset <= offset
    requires k + 1 < |extents| ==> offset < extents[k + 1].key.offset
    ensures Serves(entries, m, extents[k], Spans(m, extents), offset, length, Served(entries, m, extents))
  {
    hide RamBytes, SourceOf, SourceByte, ContentFrom, Spans, ExtentType, Runs.Next, Runs.Ordered, Runs.Failure;
    var p := extents[k].data;
    var within := offset - extents[k].key.offset;
    assert Spans(m, extents)[k] == SpanOf(m, extents[k]);
    Runs.NextInSpan(Spans(m, extents), k, offset, length);
    KnownKind(entries, m, p);
    forall i: nat | i < Available(m, p, length, within)
      ensures Supplies(m, SourceOf(entries, m, p), within, Served(entries, m, extents), offset, i)
    {
      ContentAt(ServedBytes(entries, m), m, extents, 0, k, within + i);
    }
  }

  lemma KnownKind(entries: seq<Entry>, m: Memory, p: nat)
    ensures SourceOf(entries, m, p) == Invalid <==> ExtentType(m, p) > EXTENT_PREALLOC
  {
    hide Resolve, Load64, Load8;
  }

  /** The extent gives the next bytes of the content, or is of an unknown kind. */
  ghost predicate Serves(entries: seq<Entry>, m: Memory, extent: Item, spans: seq<Runs.Span>, offset: nat, length: nat,
                         content: seq<byte>)
    requires extent.key.offset <= offset
  {
    var src, within := SourceOf(entries, m, extent.data), offset - extent.key.offset;
    var n := Available(m, extent.data, length, within);
    && src != Faulty
    && if src == Invalid then Runs.Failure(spans, offset) == EINVAL && Runs.Next(spans, offset, length) == 0
       else
         && Runs.Failure(spans, offset) == 0
         && n == Runs.Next(spans, offset, length)
         && forall i: nat :: i < n ==> Supplies(m, src, within, content, offset, i)
  }

  lemma SearchableLater(read: Reader, root: nat, inode: u64, offset: u64, later: u64)
    requires Searchable(read, root, ExtentKey(inode, offset)) && offset <= later
    ensures Searchable(read, root, ExtentKey(inode, later))
  {
    hide WellFormed, TreeItems, Level;
    if read(root).Some? && Level(read, root) > 0 && offset < later {
      var least, a, b := TreeItems(read, root)[0].key, ExtentKey(inode, offset), ExtentKey(inode, later);
      if least != a {
        LessTransitive(least, a, b);
      }
    }
  }

  /** n bytes of the content, from the given offset on, stand at index `at`; the rest is as before. */
  ghost predicate Written(content: seq<byte>, offset: nat, before: seq<byte>, after: seq<byte>, at: nat, n: nat) {
    && |after| == |before|
    && at + n <= |after|
    && (n > 0 ==> offset + n <= |content|)
    && forall i :: 0 <= i < |after| ==> after[i] == if at <= i < at + n then content[offset + (i - at)] else before[i]
  }

  lemma FilledIsWritten(m: Memory, src: Source, within: nat, content: seq<byte>, offset: nat,
                        before: seq<byte>, after: seq<byte>, at: nat, n: nat)
    requires Filled(m, src, within, before, after, at, n)
    requires forall i: nat :: i < n ==> Supplies(m, src, within, content, offset, i)
    ensures Written(content, offset, before, after, at, n)
  {
    hide SourceByte;
    if n > 0 { assert Supplies(m, src, within, content, offset, n - 1); }
    forall i | at <= i < at + n ensures offset + (i - at) < |content| && after[i] == content[offset + (i - at)] {
      assert Supplies(m, src, within, content, offset, i - at);
    }
  }

  /** What one call of `btrfs_low_read` leaves in the buffer and returns, for every file and
      every length. What is written is the content from the offset on, as far as the rounds reach,
      and nothing behind it; a search that fails decides the return value. */
  ghost predicate ReadDone(spans: seq<Runs.Span>, content: seq<byte>, offset: nat, length: nat, before: seq<byte>,
                           after: seq<byte>, ret: int)
  {
    && length <= |before| == |after|
    && ret == Runs.ReturnOf(spans, offset, length, 0)
    && Written(content, offset, before, after, 0, Runs.Reach(spans, offset, length))
  }

  /** The state of the reading loop after `got` bytes, as long as every count was right. */
  ghost predicate InStep(spans: seq<Runs.Span>, content: seq<byte>, offset: nat, length: nat, before: seq<byte>,
                         now: seq<byte>, got: nat)
    requires got <= length
  {
    && Written(content, offset, before, now, 0, got)
    && Runs.Reach(spans, offset, length) == got + Runs.Reach(spans, offset + got, length - got)
    && Runs.ReturnOf(spans, offset, length, 0) == Runs.ReturnOf(spans, offset + got, length - got, got)
  }

  /** The state after a round that copied more than it could count but counted something: the
      next round copies the uncounted rest again, whose count converts to 0. */
  ghost predicate Behind(spans: seq<Runs.Span>, content: seq<byte>, offset: nat, length: nat, before: seq<byte>,
                         now: seq<byte>, got: nat)
    requires got <= length
  {
    var reach := Runs.Reach(spans, offset, length);
    && got < reach
    && Written(content, offset, before, now, 0, reach)
    && Runs.Next(spans, offset + got, length - got) == reach - got
    && Runs.ToInt(reach - got) == 0
    && Runs.ReturnOf(spans, offset, length, 0) == Runs.ToInt(got)
  }

  ghost predicate Reading(spans: seq<Runs.Span>, content: seq<byte>, offset: nat, length: nat, before: seq<byte>,
                          now: seq<byte>, got: nat)
  {
    && got <= length <= |before| == |now|
    && (InStep(spans, content, offset, length, before, now, got)
        || Behind(spans, content, offset, length, before, now, got))
  }

  /** The outcome of one round: n bytes copied, reported as an `int`, or a failed search. */
  ghost predicate StepDone(spans: seq<Runs.Span>, content: seq<byte>, offset: nat, length: nat, before: seq<byte>,
                           after: seq<byte>, at: nat, n: nat, ret: int)
  {
    && n == Runs.Next(spans, offset, length)
    && Written(content, offset, before, after, at, n)
    && if Runs.Failure(spans, offset) < 0 then ret == Runs.Failure(spans, offset) && n == 0 else ret == Runs.ToInt(n)
  }

  /** Rounds written one behind the other, or one inside the other, join. */
  lemma WrittenJoin(content: seq<byte>, offset: nat, before: seq<byte>, now: seq<byte>, next: seq<byte>,
                    w: nat, got: nat, n: nat)
    requires Written(content, offset, before, now, 0, w)
    requires got <= w <= got + n
    requires Written(content, offset + got, now, next, got, n)
    ensures Written(content, offset, before, next, 0, got + n)
  {}

  lemma ToIntWraps(n: nat)
    requires Runs.ToInt(n) >= 0
    ensures Runs.ToInt(n) <= n && Runs.ToInt(n - Runs.ToInt(n)) == 0
  {}

  lemma AfterLast(spans: seq<Runs.Span>, content: seq<byte>, offset: nat, length: nat, before: seq<byte>,
                  now: seq<byte>, next: seq<byte>, got: nat, n: nat, ret: int)
    requires length <= |before| == |now| && got < length
    requires InStep(spans, content, offset, length, before, now, got)
    requires StepDone(spans, content, offset + got, length - got, now, next, got, n, ret)
    requires ret <= 0
    ensures ReadDone(spans, content, offset, length, before, next, if ret < 0 then ret else Runs.ToInt(got))
  {
    hide Written, Runs.Next, Runs.ToInt, Runs.Failure, Runs.Reach, Runs.ReturnOf;
    WrittenJoin(content, offset, before, now, next, got, got, n);
    WrittenLength(content, offset, before, next, got + n);
    Runs.OneRound(spans, offset + got, length - got, got);
  }

  lemma AfterSmall(spans: seq<Runs.Span>, content: seq<byte>, offset: nat, length: nat, before: seq<byte>,
                   now: seq<byte>, next: seq<byte>, got: nat, n: nat, ret: int)
    requires length <= |before| == |now| && got < length
    requires InStep(spans, content, offset, length, before, now, got)
    requires StepDone(spans, content, offset + got, length - got, now, next, got, n, ret)
    requires 0 < n <= Runs.INT_MAX
    ensures ret == n && InStep(spans, content, offset, length, before, next, got + n)
  {
    hide Written, Runs.Next, Runs.ToInt, Runs.Failure, Runs.Reach, Runs.ReturnOf;
    WrittenJoin(content, offset, before, now, next, got, got, n);
    WrittenLength(content, offset, before, next, got + n);
    Runs.OneRound(spans, offset + got, length - got, got);
  }

  lemma AfterLarge(spans: seq<Runs.Span>, content: seq<byte>, offset: nat, length: nat, before: seq<byte>,
                   now: seq<byte>, next: seq<byte>, got: nat, n: nat, ret: int)
    requires length <= |before| == |now| && got < length
    requires InStep(spans, content, offset, length, before, now, got)
    requires StepDone(spans, content, offset + got, length - got, now, next, got, n, ret)
    requires n > Runs.INT_MAX && ret > 0
    ensures ret < n && Behind(spans, content, offset, length, before, next, got + ret)
  {
    hide Written, Runs.Next, Runs.ToInt, Runs.Failure, Runs.Reach, Runs.ReturnOf;
    WrittenJoin(content, offset, before, now, next, got, got, n);
    WrittenLength(content, offset, before, next, got + n);
    Runs.OneRound(spans, offset + got, length - got, got);
    ToIntWraps(n);
    Runs.NextShift(spans, offset + got, length - got, ret);
  }

  lemma StepBounds(spans: seq<Runs.Span>, content: seq<byte>, offset: nat, length: nat, before: seq<byte>,
                   after: seq<byte>, at: nat, n: nat, ret: int)
    requires StepDone(spans, content, offset, length, before, after, at, n, ret)
    ensures n <= length && |after| == |before| && (n == 0 ==> ret <= 0)
    ensures ret > 0 ==> ret <= n && offset + n <= |content|
  {}

  lemma AfterInStep(spans: seq<Runs.Span>, content: seq<byte>, offset: nat, length: nat, before: seq<byte>,
                    now: seq<byte>, next: seq<byte>, got: nat, n: nat, ret: int)
    requires length <= |before| == |now| && got < length
    requires InStep(spans, content, offset, length, before, now, got)
    requires StepDone(spans, content, offset + got, length - got, now, next, got, n, ret)
    ensures ret < 0 ==> ReadDone(spans, content, offset, length, before, next, ret)
    ensures ret == 0 ==> ReadDone(spans, content, offset, length, before, next, Runs.ToInt(got))
    ensures ret > 0 ==> ret <= n && Reading(spans, content, offset, length, before, next, got + ret)
  {
    hide Written, Runs.Next, Runs.ToInt, Runs.Failure, Runs.Reach, Runs.ReturnOf, InStep, Behind, ReadDone;
    StepBounds(spans, content, offset + got, length - got, now, next, got, n, ret);
    hide StepDone;
    if ret <= 0 {
      AfterLast(spans, content, offset, length, before, now, next, got, n, ret);
    } else if n <= Runs.INT_MAX {
      AfterSmall(spans, content, offset, length, before, now, next, got, n, ret);
    } else {
      AfterLarge(spans, content, offset, length, before, now, next, got, n, ret);
    }
  }

  lemma AfterBehind(spans: seq<Runs.Span>, content: seq<byte>, offset: nat, length: nat, before: seq<byte>,
                    now: seq<byte>, next: seq<byte>, got: nat, n: nat, ret: int)
    requires length <= |before| == |now| && got < length
    requires Behind(spans, content, offset, length, before, now, got)
    requires StepDone(spans, content, offset + got, length - got, now, next, got, n, ret)
    ensures ret == 0 && ReadDone(spans, content, offset, length, before, next, Runs.ToInt(got))
  {
    WrittenJoin(content, offset, before, now, next, got + n, got, n);
    WrittenLength(content, offset, before, next, got + n);
    hide Written, Runs.Next, Runs.ToInt, Runs.Reach, Runs.ReturnOf, Runs.Failure;
  }

  lemma WrittenLength(content: seq<byte>, offset: nat, before: seq<byte>, after: seq<byte>, n: nat)
    requires Written(content, offset, before, after, 0, n)
    ensures |after| == |before| && n <= |after|
    ensures n > 0 ==> offset + n <= |content|
  {}

  lemma ReadingStep(spans: seq<Runs.Span>, content: seq<byte>, offset: nat, length: nat, before: seq<byte>,
                    now: seq<byte>, next: seq<byte>, got: nat, n: nat, ret: int)
    requires Reading(spans, content, offset, length, before, now, got) && got < length
    requires StepDone(spans, content, offset + got, length - got, now, next, got, n, ret)
    ensures ret < 0 ==> ReadDone(spans, content, offset, length, before, next, ret)
    ensures ret == 0 ==> ReadDone(spans, content, offset, length, before, next, Runs.ToInt(got))
    ensures ret > 0 ==> Reading(spans, content, offset, length, before, next, got + ret)
    ensures ret <= length - got
    ensures ret > 0 ==> offset + got + ret <= |content|
  {
    hide Written, Runs.Next, Runs.ToInt, Runs.Reach, Runs.ReturnOf, Runs.Failure, InStep, Behind;
    StepBounds(spans, content, offset + got, length - got, now, next, got, n, ret);
    if InStep(spans, content, offset, length, before, now, got) {
      AfterInStep(spans, content, offset, length, before, now, next, got, n, ret);
    } else {
      AfterBehind(spans, content, offset, length, before, now, next, got, n, ret);
    }
  }

  lemma ReadingStart(spans: seq<Runs.Span>, content: seq<byte>, offset: nat, length: nat, before: seq<byte>)
    requires length <= |before|
    ensures Reading(spans, content, offset, length, before, before, 0)
  {
    NothingWritten(content, offset, before);
    hide Runs.Reach, Runs.ReturnOf, Written;
  }

  lemma ReadingFull(spans: seq<Runs.Span>, content: seq<byte>, offset: nat, length: nat, before: seq<byte>,
                    now: seq<byte>, got: nat)
    requires Reading(spans, content, offset, length, before, now, got)
    requires length <= got
    ensures ReadDone(spans, content, offset, length, before, now, Runs.ToInt(got))
  {
    hide Written, Runs.ToInt, Runs.Failure;
    assert Runs.Next(spans, offset + got, 0) == 0;
  }

  lemma NothingWritten(content: seq<byte>, offset: nat, before: seq<byte>)
    ensures Written(content, offset, before, before, 0, 0)
  {}

  function FileExtents(list: ChunkList, m: Memory, fsTree: nat, inode: u64): seq<Item> {
    Extents(TreeItems(View(Contents(list), m), fsTree), inode)
  }

  /** The contents of a file of the image, and what the reader serves for them. */
  function FileContent(list: ChunkList, m: Memory, fsTree: nat, inode: u64): seq<byte> {
    Content(Contents(list), m, FileExtents(list, m, fsTree, inode))
  }

  function FileServed(list: ChunkList, m: Memory, fsTree: nat, inode: u64): seq<byte> {
    Served(Contents(list), m, FileExtents(list, m, fsTree, inode))
  }

  function FileSpans(list: ChunkList, m: Memory, fsTree: nat, inode: u64): seq<Runs.Span> {
    Spans(m, FileExtents(list, m, fsTree, inode))
  }

  /** The search of one round of `btrfs_low_read`: the item found and whether it is an extent of
      the inode. */
  method NextExtent(list: ChunkList, m: Memory, fsTree: nat, inode: u64, offset: u64)
    returns (found: bool, extent: Item)
    requires Searchable(View(Contents(list), m), fsTree, ExtentKey(inode, offset))
    ensures var r := Find(TreeItems(View(Contents(list), m), fsTree), ExtentKey(inode, offset), false);
            found <==> r == Some(extent) && IsExtent(extent, inode)
    ensures var r := Find(TreeItems(View(Contents(list), m), fsTree), ExtentKey(inode, offset), false);
            !found ==> r == None || !IsExtent(r.value, inode)
  {
    hide View, TreeItems, Searchable, LastAtMost;
    var key := ExtentKey(inode, offset);
    var r := FindInBtree(list, m, fsTree, key, false);
    if r == None {
      return false, Item(key, 0);
    }
    return r.value.key.itemType == EXTENT_DATA && r.value.key.objectid == inode, r.value;
  }

  /** From the first extent on the search of a round finds an extent that serves it. */
  lemma Plan(entries: seq<Entry>, m: Memory, items: seq<Item>, inode: u64, offset: u64, length: nat)
    returns (extent: Item)
    requires SortedItems(items) && FileOk(entries, m, Extents(items, inode))
    requires !Runs.Missing(Spans(m, Extents(items, inode)), offset)
    ensures Find(items, ExtentKey(inode, offset), false) == Some(extent)
    ensures IsExtent(extent, inode) && extent.key.offset <= offset
    ensures Serves(entries, m, extent, Spans(m, Extents(items, inode)), offset, length,
                   Served(entries, m, Extents(items, inode)))
  {
    hide RamBytes, SourceOf, Served, Extents, Find, Serves, SortedItems, Spans;
    var extents := Extents(items, inode);
    var k := FindsExtent(m, items, inode, offset);
    extent := extents[k];
    Round(entries, m, extents, k, offset, length);
  }

  /** `NextExtent` on a well-formed file. */
  method PlannedExtent(list: ChunkList, m: Memory, fsTree: nat, inode: u64, offset: u64, length: nat)
    returns (found: bool, extent: Item)
    requires Searchable(View(Contents(list), m), fsTree, ExtentKey(inode, offset))
    requires FileOk(Contents(list), m, FileExtents(list, m, fsTree, inode))
    ensures found <==> !Runs.Missing(FileSpans(list, m, fsTree, inode), offset)
    ensures found ==> extent.key.offset <= offset
                      && Serves(Contents(list), m, extent, FileSpans(list, m, fsTree, inode), offset, length,
                                FileServed(list, m, fsTree, inode))
  {
    ghost var items := TreeItems(View(Contents(list), m), fsTree);
    ItemsSorted(View(Contents(list), m), fsTree);
    hide View, TreeItems, Extents, Served, Searchable, FileOk, Find, SortedItems, Serves;
    if Runs.Missing(Spans(m, Extents(items, inode)), offset) {
      FindsNoExtent(m, items, inode, offset);
    } else {
      var _ := Plan(Contents(list), m, items, inode, offset, length);
    }
    found, extent := NextExtent(list, m, fsTree, inode, offset);
  }

  lemma FileServedSize(list: ChunkList, m: Memory, fsTree: nat, inode: u64)
    requires FileOk(Contents(list), m, FileExtents(list, m, fsTree, inode))
    ensures |FileServed(list, m, fsTree, inode)| < OFF_LIMIT
  {
    hide RamBytes, SourceOf, ExtentContent, View, TreeItems, Extents;
    if FileExtents(list, m, fsTree, inode) != [] {
      ContentSize(ServedBytes(Contents(list), m), m, FileExtents(list, m, fsTree, inode), 0);
    }
  }

  lemma FileServedRight(list: ChunkList, m: Memory, fsTree: nat, inode: u64)
    ensures (forall p :: p in FileExtents(list, m, fsTree, inode) ==> Contiguous(Contents(list), m, p.data)) ==>
              FileServed(list, m, fsTree, inode) == FileContent(list, m, fsTree, inode)
  {
    hide Contiguous, Served, Content, FileExtents;
    if forall p :: p in FileExtents(list, m, fsTree, inode) ==> Contiguous(Contents(list), m, p.data) {
      ContiguousServed(Contents(list), m, FileExtents(list, m, fsTree, inode));
    }
  }

  /** The body of the loop of `btrfs_low_read`: n bytes of one extent go to the buffer at `at`. */
  method ReadStep(list: ChunkList, m: Memory, fsTree: nat, inode: u64, buf: array<byte>, at: nat, length: nat,
                  offset: nat)
    returns (ret: int, ghost n: nat)
    requires at + length <= buf.Length < OFF_LIMIT && length > 0 && offset < OFF_LIMIT
    requires Searchable(View(Contents(list), m), fsTree, ExtentKey(inode, offset))
    requires FileOk(Contents(list), m, FileExtents(list, m, fsTree, inode))
    modifies buf
    ensures StepDone(FileSpans(list, m, fsTree, inode), FileServed(list, m, fsTree, inode), offset, length,
                     old(buf[..]), buf[..], at, n, ret)
  {
    hide FileExtents, FileServed, FileSpans, View, Searchable, FileOk, SourceOf, Available, Filled, Written, Serves;
    ghost var content, spans := FileServed(list, m, fsTree, inode), FileSpans(list, m, fsTree, inode);
    var found, extent := PlannedExtent(list, m, fsTree, inode, offset, length);
    n := Runs.Next(spans, offset, length);
    if !found {
      NothingFound(spans, content, offset, length, buf[..], at);
      return ENOENT, n;
    }
    var within := offset - extent.key.offset;
    ghost var before := buf[..];
    ServesParts(Contents(list), m, extent, spans, offset, length, content);
    ret := ReadExtent(list, m, extent.data, buf, at, length, within);
    ServesWritten(Contents(list), m, extent, spans, offset, length, content, before, buf[..], at, ret);
  }

  lemma NothingFound(spans: seq<Runs.Span>, content: seq<byte>, offset: nat, length: nat, buf: seq<byte>, at: nat)
    requires Runs.Missing(spans, offset) && at + length <= |buf|
    ensures StepDone(spans, content, offset, length, buf, buf, at, Runs.Next(spans, offset, length), ENOENT)
  {}

  lemma ServesParts(entries: seq<Entry>, m: Memory, extent: Item, spans: seq<Runs.Span>, offset: nat, length: nat,
                    content: seq<byte>)
    requires extent.key.offset <= offset && Serves(entries, m, extent, spans, offset, length, content)
    ensures SourceOf(entries, m, extent.data) != Faulty
  {}

  lemma ServesWritten(entries: seq<Entry>, m: Memory, extent: Item, spans: seq<Runs.Span>, offset: nat, length: nat,
                      content: seq<byte>, before: seq<byte>, after: seq<byte>, at: nat, ret: int)
    requires extent.key.offset <= offset && Serves(entries, m, extent, spans, offset, length, content)
    requires at + length <= |before|
    requires var src, within := SourceOf(entries, m, extent.data), offset - extent.key.offset;
             var n := Available(m, extent.data, length, within);
             if src == Invalid then ret == EINVAL && after == before
             else ret == Runs.ToInt(n) && Filled(m, src, within, before, after, at, n)
    ensures StepDone(spans, content, offset, length, before, after, at, Runs.Next(spans, offset, length), ret)
  {
    hide SourceOf, Available, Filled, Written, Supplies, Runs.Next, Runs.Failure, Runs.ToInt;
    if SourceOf(entries, m, extent.data) == Invalid {
      UntouchedIsWritten(content, offset, before, at);
    } else {
      FilledIsWritten(m, SourceOf(entries, m, extent.data), offset - extent.key.offset, content, offset,
                      before, after, at, Runs.Next(spans, offset, length));
    }
  }

  lemma UntouchedIsWritten(content: seq<byte>, offset: nat, before: seq<byte>, at: nat)
    requires at <= |before|
    ensures Written(content, offset, before, before, at, 0)
  {}

  /** `btrfs_low_read`, for every file and every length: which bytes are served, that nothing else
      is written, and what is returned: the count, or the error of a search that fails. If every
      extent lies in one piece, what is served is the content of the file. */
  method ReadFile(list: ChunkList, m: Memory, fsTree: nat, inode: u64, buf: array<byte>, length: nat, start: nat)
    returns (ret: int)
    requires length <= buf.Length < OFF_LIMIT && start < OFF_LIMIT
    requires length > 0 ==> Searchable(View(Contents(list), m), fsTree, ExtentKey(inode, start))
    requires FileOk(Contents(list), m, FileExtents(list, m, fsTree, inode))
    modifies buf
    ensures ReadDone(FileSpans(list, m, fsTree, inode), FileServed(list, m, fsTree, inode), start, length,
                     old(buf[..]), buf[..], ret)
    ensures (forall p :: p in FileExtents(list, m, fsTree, inode) ==> Contiguous(Contents(list), m, p.data)) ==>
              ReadDone(FileSpans(list, m, fsTree, inode), FileContent(list, m, fsTree, inode), start, length,
                       old(buf[..]), buf[..], ret)
  {
    hide FileExtents, FileServed, FileContent, FileSpans, View, Searchable, FileOk, Contiguous, Reading, ReadDone;
    hide StepDone, Runs.ToInt;
    ghost var content, spans := FileServed(list, m, fsTree, inode), FileSpans(list, m, fsTree, inode);
    ghost var before := buf[..];
    var offset, got := start, 0;
    FileServedSize(list, m, fsTree, inode);
    FileServedRight(list, m, fsTree, inode);
    ReadingStart(spans, content, start, length, before);
    while got < length
      invariant offset == start + got < OFF_LIMIT
      invariant Reading(spans, content, start, length, before, buf[..], got)
      decreases length - got
    {
      SearchableLater(View(Contents(list), m), fsTree, inode, start, offset);
      ghost var now := buf[..];
      ghost var n;
      ret, n := ReadStep(list, m, fsTree, inode, buf, got, length - got, offset);
      ReadingStep(spans, content, start, length, before, now, buf[..], got, n, ret);
      if ret < 0 {
        return;
      }
      if ret == 0 {
        return Runs.ToInt(got);
      }
      assert ret <= length - got;
      offset := offset + ret;
      got := got + ret;
    }
    ReadingFull(spans, content, start, length, before, buf[..], got);
    ret := Runs.ToInt(got);
  }

  // ---------------------------------------------------------------- what the outcome says

  /** The spans and the content of a file belong together. */
  ghost predicate Matching(spans: seq<Runs.Span>, content: seq<byte>) {
    && Runs.Ordered(spans)
    && Runs.SizeOf(spans) == |content|
  }

  lemma FileMatches(entries: seq<Entry>, m: Memory, extents: seq<Item>)
    requires FileOk(entries, m, extents)
    ensures Matching(Spans(m, extents), Served(entries, m, extents))
    ensures Matching(Spans(m, extents), Content(entries, m, extents))
  {
    hide RamBytes, SourceOf, Runs.Ordered;
    if extents != [] {
      ContentSize(ServedBytes(entries, m), m, extents, 0);
      ContentSize(StoredBytes(entries, m), m, extents, 0);
    }
  }

  /** Whatever the length, what is written is content, and reaches neither over a gap nor over
      the end of the file. */
  lemma OnlyContentWritten(spans: seq<Runs.Span>, content: seq<byte>, offset: nat, length: nat,
                           before: seq<byte>, after: seq<byte>, ret: int)
    requires Matching(spans, content) && ReadDone(spans, content, offset, length, before, after, ret)
    ensures exists w: nat :: w <= Runs.Unbroken(spans, offset, length) <= Runs.Remaining(|content|, offset, length)
                             && Written(content, offset, before, after, 0, w)
  {
    hide Written, Runs.Reach, Runs.Unbroken, Runs.Ordered, Runs.ReturnOf;
    Runs.ReachWithin(spans, offset, length);
    Runs.UnbrokenIff(spans, offset, length);
    assert Written(content, offset, before, after, 0, Runs.Reach(spans, offset, length));
  }

  /** Every place of content[offset .. offset + count] belongs to an extent of a known kind, and every
      extent that ends inside that range contributes no more than 2 GiB - 1 to it. */
  ghost predicate Servable(spans: seq<Runs.Span>, offset: nat, count: nat) {
    && (forall a: nat :: offset <= a < offset + count ==> Runs.Covered(spans, a))
    && (forall k :: 0 <= k < |spans| ==> Runs.Passed(spans[k], offset, offset + count))
  }

  lemma ReachIff(spans: seq<Runs.Span>, offset: nat, length: nat)
    requires Runs.Ordered(spans)
    ensures var count := Runs.Remaining(Runs.SizeOf(spans), offset, length);
            && Runs.Reach(spans, offset, length) <= count
            && (Runs.Reach(spans, offset, length) == count <==> Servable(spans, offset, count))
  {
    hide Runs.Reach, Runs.Unbroken, Runs.Ordered, Runs.Covered, Runs.Passed;
    Runs.ReachWithin(spans, offset, length);
    Runs.UnbrokenIff(spans, offset, length);
    Runs.FilledIff(spans, offset, length);
  }

  /** The buffer gets exactly content[offset .. min(offset + length, size)] if and only if there is
      no gap in that range and every extent that ends inside it contributes no more than
      2 GiB - 1. */
  lemma BufferFilledIff(spans: seq<Runs.Span>, content: seq<byte>, offset: nat, length: nat,
                        before: seq<byte>, after: seq<byte>, ret: int)
    requires Matching(spans, content) && ReadDone(spans, content, offset, length, before, after, ret)
    ensures var count := Runs.Remaining(|content|, offset, length);
            if Servable(spans, offset, count) then Written(content, offset, before, after, 0, count)
            else exists w: nat :: w < count && Written(content, offset, before, after, 0, w)
  {
    hide Written, Runs.Reach, Runs.Ordered, Runs.ReturnOf, Servable;
    ReachIff(spans, offset, length);
    assert Written(content, offset, before, after, 0, Runs.Reach(spans, offset, length));
  }

  /** All extents are of known kinds, and there is one at or before the offset. */
  predicate Readable(spans: seq<Runs.Span>, offset: nat) {
    Runs.AllKnown(spans) && !Runs.Missing(spans, offset)
  }

  /** With no extent above 2 GiB - 1, or with no more than that to read, the buffer is filled up to
      the next gap and the count is what is returned, as far as an `int` can say it. */
  lemma SmallFileRead(spans: seq<Runs.Span>, content: seq<byte>, offset: nat, length: nat,
                      before: seq<byte>, after: seq<byte>, ret: int)
    requires ReadDone(spans, content, offset, length, before, after, ret)
    requires Runs.AllSmall(spans) || Runs.Unbroken(spans, offset, length) <= Runs.INT_MAX
    ensures var count := Runs.Unbroken(spans, offset, length);
            && Written(content, offset, before, after, 0, count)
            && ret ==
               if count < length && Runs.Failure(spans, offset + count) < 0 then Runs.Failure(spans, offset + count)
               else Runs.ToInt(count)
    ensures Readable(spans, offset) ==> ret == Runs.ToInt(Runs.Unbroken(spans, offset, length))
  {
    hide Written, Runs.ToInt, Runs.Unbroken, Runs.Failure;
    Runs.SmallRun(spans, offset, length, 0);
    if Readable(spans, offset) {
      Runs.KnownFailure(spans, offset + Runs.Unbroken(spans, offset, length));
    }
  }

  /** The count of bytes up to the next gap is reported if and only if it fits an `int` and the
      search that ended the read, if one did, found an extent of a known kind; where every search
      does, if and only if it fits. In front of the first extent nothing is read but -ENOENT. */
  lemma CountReportedIff(spans: seq<Runs.Span>, content: seq<byte>, offset: nat, length: nat,
                         before: seq<byte>, after: seq<byte>, ret: int)
    requires ReadDone(spans, content, offset, length, before, after, ret)
    ensures var count := Runs.Unbroken(spans, offset, length);
            ret == count <==>
            count <= Runs.INT_MAX && (count == length || Runs.Failure(spans, offset + count) == 0)
    ensures Readable(spans, offset) ==>
              (ret == Runs.Unbroken(spans, offset, length) <==> Runs.Unbroken(spans, offset, length) <= Runs.INT_MAX)
    ensures Runs.Missing(spans, offset) && length > 0 ==> ret == -2 && after == before
  {
    if Runs.Missing(spans, offset) { assert Runs.Reach(spans, offset, length) == 0; }
    hide Runs.Unbroken, Runs.ReturnOf, Runs.Failure, Runs.Reach;
    Runs.ReturnIff(spans, offset, length);
    if Readable(spans, offset) {
      Runs.KnownFailure(spans, offset + Runs.Unbroken(spans, offset, length));
    }
  }

  /** In a tiled file there are no gaps, and nothing is missing. */
  lemma TiledFile(spans: seq<Runs.Span>, content: seq<byte>, offset: nat, length: nat)
    requires Runs.Tiled(spans) && Matching(spans, content) && spans != []
    ensures Readable(spans, offset)
    ensures Runs.Unbroken(spans, offset, length) == Runs.Remaining(|content|, offset, length)
  {
    hide Runs.Ordered;
    Runs.TiledUnbroken(spans, offset, length);
  }

  // ---------------------------------------------------------------- laws of reading

  lemma {:induction false} StopAgain(spans: seq<Runs.Span>, offset: nat, later: nat)
    requires offset <= later <= Runs.Stop(spans, offset)
    ensures Runs.Stop(spans, later) == Runs.Stop(spans, offset)
    decreases |spans|
  {
    if !Runs.Missing(spans, offset) && later > offset {
      if offset < spans[0].End() {
        var next := if later < spans[0].End() then spans[0].End() else later;
        StopAgain(spans[1..], spans[0].End(), next);
      } else {
        StopAgain(spans[1..], offset, later);
      }
    }
  }

  /** How many bytes two reads in a row have to read, and one joint read. */
  lemma UnbrokenJoins(spans: seq<Runs.Span>, offset: nat, n: nat, k: nat)
    ensures var a, b := Runs.Unbroken(spans, offset, n), Runs.Unbroken(spans, offset + n, k);
            && (a == n || b == 0 ==> Runs.Unbroken(spans, offset, n + k) == a + b)
            && (a < n ==> Runs.Unbroken(spans, offset, n + k) == a)
  {
    hide Runs.Stop;
    if offset + n <= Runs.Stop(spans, offset) {
      StopAgain(spans, offset, offset + n);
    }
  }

  /** In a tiled file the second of two reads in a row gives nothing when the first was short. */
  lemma TiledReads(spans: seq<Runs.Span>, offset: nat, n: nat, k: nat)
    requires Runs.Tiled(spans)
    ensures Runs.Unbroken(spans, offset, n) == n || Runs.Unbroken(spans, offset + n, k) == 0
  {
    hide Runs.Tiled, Runs.Unbroken;
    Runs.TiledUnbroken(spans, offset, n);
    Runs.TiledUnbroken(spans, offset + n, k);
  }

  /** Reads compose: n bytes at `offset` and then k bytes behind them count as the n + k bytes at
      `offset` do if and only if an `int` can count these, and the first read was not short or
      the second gives nothing, which is always so in a tiled file. */
  lemma ReadsCompose(spans: seq<Runs.Span>, content: seq<byte>, offset: nat, n: nat, k: nat,
                     a: seq<byte>, a': seq<byte>, ra: int, b: seq<byte>, b': seq<byte>, rb: int,
                     c: seq<byte>, c': seq<byte>, rc: int)
    requires Readable(spans, offset)
    requires Runs.Unbroken(spans, offset, n) <= Runs.INT_MAX && Runs.Unbroken(spans, offset + n, k) <= Runs.INT_MAX
    requires ReadDone(spans, content, offset, n, a, a', ra)
    requires ReadDone(spans, content, offset + n, k, b, b', rb)
    requires ReadDone(spans, content, offset, n + k, c, c', rc)
    ensures ra + rb == rc <==> Runs.Unbroken(spans, offset, n + k) <= Runs.INT_MAX && (ra == n || rb == 0)
    ensures Runs.Tiled(spans) ==> ra == n || rb == 0
    ensures ra + rb == rc ==> 0 <= ra <= |a'| && 0 <= rb <= |b'| && rc <= |c'| && a'[..ra] + b'[..rb] == c'[..rc]
  {
    hide Written, Runs.Unbroken, ReadDone, Runs.Tiled, Runs.AllKnown;
    if Runs.Tiled(spans) { TiledReads(spans, offset, n, k); }
    CountReportedIff(spans, content, offset, n, a, a', ra);
    CountReportedIff(spans, content, offset + n, k, b, b', rb);
    CountReportedIff(spans, content, offset, n + k, c, c', rc);
    UnbrokenJoins(spans, offset, n, k);
    JointFits(spans, content, offset, n + k, c, c', rc);
    if ra + rb == rc {
      BytesCompose(spans, content, offset, n, k, a, a', ra, b, b', rb, c, c', rc);
    }
  }

  lemma JointFits(spans: seq<Runs.Span>, content: seq<byte>, offset: nat, length: nat,
                  before: seq<byte>, after: seq<byte>, ret: int)
    requires ReadDone(spans, content, offset, length, before, after, ret)
    ensures ret <= Runs.INT_MAX
  {
    hide Written, Runs.ReturnOf, Runs.Reach;
    Runs.ReturnFits(spans, offset, length, 0);
  }

  /** The bytes compose for any joint count, if no extent exceeds 2 GiB - 1 or the joint count does
      not. */
  lemma BytesCompose(spans: seq<Runs.Span>, content: seq<byte>, offset: nat, n: nat, k: nat,
                     a: seq<byte>, a': seq<byte>, ra: int, b: seq<byte>, b': seq<byte>, rb: int,
                     c: seq<byte>, c': seq<byte>, rc: int)
    requires Readable(spans, offset)
    requires Runs.AllSmall(spans) || Runs.Unbroken(spans, offset, n + k) <= Runs.INT_MAX
    requires ReadDone(spans, content, offset, n, a, a', ra)
    requires ReadDone(spans, content, offset + n, k, b, b', rb)
    requires ReadDone(spans, content, offset, n + k, c, c', rc)
    requires Runs.Tiled(spans) || Runs.Unbroken(spans, offset, n) == n || Runs.Unbroken(spans, offset + n, k) == 0
    ensures var wa, wb := Runs.Unbroken(spans, offset, n), Runs.Unbroken(spans, offset + n, k);
            && wa <= |a'| && wb <= |b'| && wa + wb <= |c'|
            && a'[..wa] + b'[..wb] == c'[..wa + wb]
  {
    hide Written, Runs.Unbroken, ReadDone, Runs.ToInt, Runs.Tiled;
    if Runs.Tiled(spans) { TiledReads(spans, offset, n, k); }
    UnbrokenJoins(spans, offset, n, k);
    SmallFileRead(spans, content, offset, n, a, a', ra);
    SmallFileRead(spans, content, offset + n, k, b, b', rb);
    SmallFileRead(spans, content, offset, n + k, c, c', rc);
    var wa, wb := Runs.Unbroken(spans, offset, n), Runs.Unbroken(spans, offset + n, k);
    WrittenPart(content, offset, a, a', wa);
    WrittenPart(content, offset + n, b, b', wb);
    WrittenPart(content, offset, c, c', wa + wb);
    if wb > 0 {
      assert content[offset..offset + wa + wb] == content[offset..offset + wa] + content[offset + n..offset + n + wb];
    }
  }

  lemma WrittenPart(content: seq<byte>, offset: nat, before: seq<byte>, after: seq<byte>, n: nat)
    requires Written(content, offset, before, after, 0, n)
    ensures n <= |after|
    ensures n > 0 ==> offset + n <= |content| && after[..n] == content[offset..offset + n]
  {}

  /** After a short read the next call, behind the bytes that were read, returns 0, and in a tiled
      file so does every call behind them. */
  lemma ShortReadIsLast(spans: seq<Runs.Span>, content: seq<byte>, offset: nat, length: nat,
                        a: seq<byte>, a': seq<byte>, ra: int,
                        later: nat, k: nat, b: seq<byte>, b': seq<byte>, rb: int)
    requires ReadDone(spans, content, offset, length, a, a', ra)
    requires 0 <= ra < length && Runs.Unbroken(spans, offset, length) <= Runs.INT_MAX
    requires later == offset + ra || (Runs.Tiled(spans) && later >= offset + ra)
    requires ReadDone(spans, content, later, k, b, b', rb)
    ensures rb == 0
  {
    hide Written, ReadDone, Runs.Failure, Runs.Tiled, Runs.ToInt;
    SmallFileRead(spans, content, offset, length, a, a', ra);
    if later == offset + ra {
      ShortStop(spans, offset, length, k);
    } else {
      LaterIsEmpty(spans, offset, length, later, k);
    }
    SmallFileRead(spans, content, later, k, b, b', rb);
  }

  lemma ShortStop(spans: seq<Runs.Span>, offset: nat, length: nat, k: nat)
    requires Runs.Unbroken(spans, offset, length) < length
    ensures Runs.Unbroken(spans, offset + Runs.Unbroken(spans, offset, length), k) == 0
  {
    StopAgain(spans, offset, offset + Runs.Unbroken(spans, offset, length));
  }

  lemma LaterIsEmpty(spans: seq<Runs.Span>, offset: nat, length: nat, later: nat, k: nat)
    requires Runs.Tiled(spans) && Runs.Unbroken(spans, offset, length) < length
    requires later >= offset + Runs.Unbroken(spans, offset, length)
    ensures Runs.Unbroken(spans, later, k) == 0
    ensures spans != [] ==> Runs.Failure(spans, later) == 0
  {
    hide Runs.Unbroken;
    Runs.TiledUnbroken(spans, offset, length);
    Runs.TiledUnbroken(spans, later, k);
    if spans != [] { Runs.KnownFailure(spans, later); }
  }

  /** Asked for 2 GiB of a tiled file of that size, the call fills the buffer and returns a
      negative count. */
  lemma TwoGigabytes(spans: seq<Runs.Span>, content: seq<byte>, before: seq<byte>, after: seq<byte>, ret: int)
    requires Matching(spans, content) && Runs.Tiled(spans) && |content| == 0x8000_0000
    requires ReadDone(spans, content, 0, 0x8000_0000, before, after, ret)
    ensures ret == -0x8000_0000
    ensures Written(content, 0, before, after, 0, 0x8000_0000)
  {
    hide Written, Runs.Ordered;
    Runs.TwoGigabyteRun(spans);
  }

  /** On an image of file trees whatever a path names can be read at any offset. */
  lemma LocatedIsReadable(fs: Fs, trees: iset<nat>, tree: nat, path: seq<byte>, offset: u64)
    requires FileTrees(fs, trees) && tree in trees && fs.Locate(tree, path).Located?
    ensures Searchable(fs.Read(), fs.Locate(tree, path).tree, ExtentKey(fs.Locate(tree, path).dir, offset))
  {
    hide FileTrees, Searchable, Fs.Locate;
    LocatedIsSearchable(fs, trees, tree, path, ExtentKey(fs.Locate(tree, path).dir, offset));
  }
}
