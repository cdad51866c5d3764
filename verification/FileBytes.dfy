/** File contents as the bytes of extent items and of the device: which kind of extent means what. */
module FileBytes {
  import opened Bytes
  import opened Keys
  import opened Chunks
  import opened Trees
  import opened FileRead
  import Runs = ReadRuns

  // ---------------------------------------------------------------- extents

  /** The fields in front of the kind of an extent that the reader does not use. */
  datatype Head = Head(generation: u64, compression: byte, encryption: byte, other: u16)

  /** What the format knows: data behind the head (kind 0), data at a logical address (kind 1, or 2 for
      extents written in advance), which the chunk list maps to the device in one piece, and address 0
      for a hole. */
  datatype Extent =
    | Inline(data: seq<byte>)
    | Mapped(kind: byte, length: u64, bytenr: u64, addr: nat)
    | Hole(kind: byte, length: u64)
  {
    predicate Valid() {
      match this
      case Inline(data) => |data| < 0x1_0000_0000_0000_0000
      case Mapped(kind, _, bytenr, _) => 1 <= kind <= 2 && bytenr > 0
      case Hole(kind, _) => 1 <= kind <= 2
    }

    function Length(): u64
      requires Valid()
    {
      match this
      case Inline(data) => |data|
      case Mapped(_, length, _, _) => length
      case Hole(_, length) => length
    }

    /** The bytes of the file that the extent stands for. */
    function Data(m: Memory): (s: seq<byte>)
      requires Valid()
      ensures |s| == Length()
    {
      match this
      case Inline(data) => data
      case Mapped(_, length, _, addr) => Slice(m, addr, length)
      case Hole(_, length) => seq(length, _ => 0)
    }

    /** The extent item. */
    function Store(h: Head): seq<byte>
      requires Valid()
    {
      match this
      case Inline(data) => StoreExtentHead(h.generation, |data|, h.compression, h.encryption, h.other, 0) + data
      case Mapped(kind, length, bytenr, _) =>
        StoreExtentHead(h.generation, length, h.compression, h.encryption, h.other, kind) + Store64(bytenr)
      case Hole(kind, length) =>
        StoreExtentHead(h.generation, length, h.compression, h.encryption, h.other, kind) + Store64(0)
    }
  }

  predicate MappedAt(entries: seq<Entry>, bytenr: nat, addr: nat, i: nat) {
    Resolve(entries, bytenr + i) == At(addr + i)
  }

  /** The image holds the extent item at p, and the chunk list maps its data. */
  ghost predicate HoldsExtent(entries: seq<Entry>, m: Memory, p: nat, h: Head, x: Extent) {
    && x.Valid()
    && Holds(m, p, x.Store(h))
    && (x.Mapped? ==> forall i: nat :: i < x.length ==> MappedAt(entries, x.bytenr, x.addr, i))
  }

  lemma InlineExtent(entries: seq<Entry>, m: Memory, p: nat, h: Head, x: Extent, i: nat)
    requires HoldsExtent(entries, m, p, h, x) && x.Inline? && i < |x.data|
    ensures StoredBytes(entries, m)(p, i) == x.data[i] && ServedBytes(entries, m)(p, i) == x.data[i]
  {
    var head := StoreExtentHead(h.generation, |x.data|, h.compression, h.encryption, h.other, 0);
    HoldsSplit(m, p, head, x.data);
    assert m(p + 21 + i) == x.data[i];
    hide RamBytes, ExtentType, StoreExtentHead;
    LoadStoreExtentHead(m, p, h.generation, |x.data|, h.compression, h.encryption, h.other, 0);
  }

  lemma DiskBytes(entries: seq<Entry>, m: Memory, p: nat, addr: nat, i: nat)
    requires 1 <= ExtentType(m, p) <= 2
    ensures DiskBytenr(m, p) == 0 ==> StoredBytes(entries, m)(p, i) == 0 && ServedBytes(entries, m)(p, i) == 0
    ensures DiskBytenr(m, p) > 0 && MappedAt(entries, DiskBytenr(m, p), addr, 0)
            && MappedAt(entries, DiskBytenr(m, p), addr, i) ==>
              StoredBytes(entries, m)(p, i) == m(addr + i) && ServedBytes(entries, m)(p, i) == m(addr + i)
  {
    hide DiskBytenr, ExtentType, Resolve;
    var b := DiskBytenr(m, p);
    assert SourceOf(entries, m, p) == DiskSource(entries, b);
    assert MappedAt(entries, b, addr, 0) ==> Resolve(entries, b + 0) == At(addr + 0);
  }

  lemma DiskExtent(entries: seq<Entry>, m: Memory, p: nat, h: Head, x: Extent, i: nat)
    requires HoldsExtent(entries, m, p, h, x) && !x.Inline? && i < x.length
    ensures StoredBytes(entries, m)(p, i) == (if x.Mapped? then m(x.addr + i) else 0)
    ensures ServedBytes(entries, m)(p, i) == (if x.Mapped? then m(x.addr + i) else 0)
  {
    var bytenr := if x.Mapped? then x.bytenr else 0;
    assert x.Mapped? ==> MappedAt(entries, x.bytenr, x.addr, i) && MappedAt(entries, x.bytenr, x.addr, 0);
    LoadStoreExtent(m, p, h.generation, x.length, h.compression, h.encryption, h.other, x.kind, bytenr) by {
      hide StoreExtentHead, Store64, MappedAt;
    }
    hide RamBytes, ExtentType, DiskBytenr, StoreExtentHead, Store64, MappedAt, StoredBytes, ServedBytes, Holds;
    DiskBytes(entries, m, p, if x.Mapped? then x.addr else 0, i);
  }

  lemma ExtentLength(entries: seq<Entry>, m: Memory, p: nat, h: Head, x: Extent)
    requires HoldsExtent(entries, m, p, h, x)
    ensures x.Valid() && RamBytes(m, p) == x.Length() && ExtentType(m, p) <= 2
  {
    hide RamBytes, ExtentType, DiskBytenr, StoreExtentHead, Store64, Resolve;
    if x.Inline? {
      HoldsSplit(m, p, StoreExtentHead(h.generation, |x.data|, h.compression, h.encryption, h.other, 0), x.data);
      LoadStoreExtentHead(m, p, h.generation, |x.data|, h.compression, h.encryption, h.other, 0);
    } else {
      var bytenr := if x.Mapped? then x.bytenr else 0;
      LoadStoreExtent(m, p, h.generation, x.length, h.compression, h.encryption, h.other, x.kind, bytenr);
    }
  }

  /** The bytes of an extent, stored and served, are those of its data. */
  lemma ExtentFromBytes(entries: seq<Entry>, m: Memory, p: nat, h: Head, x: Extent)
    requires HoldsExtent(entries, m, p, h, x)
    ensures x.Valid()
    ensures ExtentContent(StoredBytes(entries, m), m, p) == x.Data(m)
    ensures ExtentContent(ServedBytes(entries, m), m, p) == x.Data(m)
  {
    ExtentLength(entries, m, p, h, x);
    hide RamBytes, ExtentType, HoldsExtent, StoredBytes, ServedBytes;
    forall i: nat | i < x.Length()
      ensures StoredBytes(entries, m)(p, i) == x.Data(m)[i] && ServedBytes(entries, m)(p, i) == x.Data(m)[i]
    {
      if x.Inline? { InlineExtent(entries, m, p, h, x, i); } else { DiskExtent(entries, m, p, h, x, i); }
    }
  }

  // ---------------------------------------------------------------- whole files

  /** The image holds these extents behind the extent items of a file. */
  ghost predicate HoldsFile(entries: seq<Entry>, m: Memory, extents: seq<Item>, hs: seq<Head>, xs: seq<Extent>) {
    && |extents| == |hs| == |xs|
    && forall k :: 0 <= k < |extents| ==> HoldsExtent(entries, m, extents[k].data, hs[k], xs[k])
  }

  /** In a file of any extents, with or without gaps, the data of each stand at its offset, and what
      the reader serves is the contents of the file. */
  lemma {:induction false} FileFromBytes(entries: seq<Entry>, m: Memory, extents: seq<Item>, hs: seq<Head>, xs: seq<Extent>, k: nat)
    requires HoldsFile(entries, m, extents, hs, xs) && Runs.Ordered(Spans(m, extents)) && k < |extents|
    ensures xs[k].Valid()
    ensures Spans(m, extents)[k] == Runs.Span(extents[k].key.offset, xs[k].Length(), true)
    ensures var from, to := extents[k].key.offset, extents[k].key.offset + xs[k].Length();
            && to <= |Content(entries, m, extents)|
            && Content(entries, m, extents)[from..to] == xs[k].Data(m)
    ensures Served(entries, m, extents) == Content(entries, m, extents)
  {
    hide RamBytes, ExtentType, HoldsExtent, Runs.Ordered, Served, ContentFrom, StoredBytes, ExtentContent;
    hide Extent.Data, Extent.Valid, Extent.Length;
    var p := extents[k].data;
    assert HoldsExtent(entries, m, p, hs[k], xs[k]);
    ExtentLength(entries, m, p, hs[k], xs[k]);
    ExtentFromBytes(entries, m, p, hs[k], xs[k]);
    FileServedFromBytes(entries, m, extents, hs, xs);
    ContentSlice(StoredBytes(entries, m), m, extents, k);
  }

  lemma {:induction false} ContentSlice(bytes: ExtentBytes, m: Memory, extents: seq<Item>, k: nat)
    requires Runs.Ordered(Spans(m, extents)) && k < |extents|
    ensures var from, to := extents[k].key.offset, extents[k].key.offset + RamBytes(m, extents[k].data);
            && to <= |ContentFrom(bytes, m, extents, 0)|
            && ContentFrom(bytes, m, extents, 0)[from..to] == ExtentContent(bytes, m, extents[k].data)
  {
    hide RamBytes, Runs.Ordered, ContentFrom;
    var content := ContentFrom(bytes, m, extents, 0);
    var from, n := extents[k].key.offset, RamBytes(m, extents[k].data);
    ContentSize(bytes, m, extents, 0);
    Runs.EndsBeforeSize(Spans(m, extents), k);
    forall i: nat | i < n ensures content[from + i] == bytes(extents[k].data, i) {
      ContentAt(bytes, m, extents, 0, k, i);
    }
  }

  lemma FileServedFromBytes(entries: seq<Entry>, m: Memory, extents: seq<Item>, hs: seq<Head>, xs: seq<Extent>)
    requires HoldsFile(entries, m, extents, hs, xs)
    ensures Served(entries, m, extents) == Content(entries, m, extents)
  {
    hide RamBytes, SourceOf, SourceByte, ExtentByte, HoldsExtent, ContentFrom;
    forall k, i: nat | 0 <= k < |extents| && i < RamBytes(m, extents[k].data)
      ensures ServedRight(entries, m, extents[k].data, i)
    {
      var p := extents[k].data;
      assert HoldsExtent(entries, m, p, hs[k], xs[k]);
      ExtentFromBytes(entries, m, p, hs[k], xs[k]);
      assert ExtentContent(StoredBytes(entries, m), m, p)[i] == StoredBytes(entries, m)(p, i);
      assert ExtentContent(ServedBytes(entries, m), m, p)[i] == ServedBytes(entries, m)(p, i);
    }
    SameContent(entries, m, extents, 0);
  }

  /** A file of a single extent is its data: with kind 0 the bytes behind the head. */
  lemma InlineFile(entries: seq<Entry>, m: Memory, inode: u64, p: nat, h: Head, d: seq<byte>)
    requires |d| < 0x1_0000_0000_0000_0000
    requires Holds(m, p, StoreExtentHead(h.generation, |d|, h.compression, h.encryption, h.other, 0) + d)
    ensures Content(entries, m, [Item(Key(inode, 108, 0), p)]) == d
    ensures Served(entries, m, [Item(Key(inode, 108, 0), p)]) == d
  {
    SingleExtent(entries, m, Item(Key(inode, 108, 0), p), h, Inline(d));
  }

  /** With kind 1 or 2 and an address that is mapped in one piece: the bytes of the device there. */
  lemma RegularFile(entries: seq<Entry>, m: Memory, inode: u64, p: nat, h: Head, kind: byte, length: u64, bytenr: u64,
                    addr: nat)
    requires (kind == 1 || kind == 2) && bytenr > 0
    requires Holds(m, p, StoreExtentHead(h.generation, length, h.compression, h.encryption, h.other, kind)
                         + Store64(bytenr))
    requires forall i: nat :: i < length ==> MappedAt(entries, bytenr, addr, i)
    ensures Content(entries, m, [Item(Key(inode, 108, 0), p)]) == Slice(m, addr, length)
    ensures Served(entries, m, [Item(Key(inode, 108, 0), p)]) == Slice(m, addr, length)
  {
    SingleExtent(entries, m, Item(Key(inode, 108, 0), p), h, Mapped(kind, length, bytenr, addr));
  }

  /** With address 0: zeros. */
  lemma HoleFile(entries: seq<Entry>, m: Memory, inode: u64, p: nat, h: Head, kind: byte, length: u64)
    requires kind == 1 || kind == 2
    requires Holds(m, p, StoreExtentHead(h.generation, length, h.compression, h.encryption, h.other, kind) + Store64(0))
    ensures Content(entries, m, [Item(Key(inode, 108, 0), p)]) == seq(length, _ => 0)
    ensures Served(entries, m, [Item(Key(inode, 108, 0), p)]) == seq(length, _ => 0)
  {
    SingleExtent(entries, m, Item(Key(inode, 108, 0), p), h, Hole(kind, length));
  }

  lemma SingleExtent(entries: seq<Entry>, m: Memory, extent: Item, h: Head, x: Extent)
    requires HoldsExtent(entries, m, extent.data, h, x) && extent.key.offset == 0
    ensures Content(entries, m, [extent]) == x.Data(m) && Served(entries, m, [extent]) == x.Data(m)
    ensures Spans(m, [extent]) == [Runs.Span(0, x.Length(), true)]
  {
    ExtentFromBytes(entries, m, extent.data, h, x);
    ExtentLength(entries, m, extent.data, h, x);
    hide RamBytes, ExtentType, HoldsExtent, Extent.Data, ExtentContent, StoredBytes, ServedBytes;
    assert [extent][1..] == [];
    OneContent(StoredBytes(entries, m), m, extent);
    OneContent(ServedBytes(entries, m), m, extent);
  }

  lemma OneContent(bytes: ExtentBytes, m: Memory, extent: Item)
    requires extent.key.offset == 0
    ensures ContentFrom(bytes, m, [extent], 0) == ExtentContent(bytes, m, extent.data)
  {
    hide RamBytes, ExtentContent;
    assert [extent][1..] == [];
    assert ContentFrom(bytes, m, [extent][1..], RamBytes(m, extent.data)) == [];
  }

  // ---------------------------------------------------------------- reads

  function Least(a: nat, b: nat): nat { if a < b then a else b }

  /** A call of `btrfs_low_read` on a file of one extent of at most 2 GiB - 1 puts into the buffer the
      data of the extent from the offset on, as many bytes as asked for or left, returns their number,
      and leaves the rest of the buffer as it was. */
  lemma {:induction false} SingleRead(entries: seq<Entry>, m: Memory, extent: Item, h: Head, x: Extent,
                                      offset: nat, length: nat, before: seq<byte>, after: seq<byte>, ret: int)
    requires HoldsExtent(entries, m, extent.data, h, x) && extent.key.offset == 0
    requires 0 < x.Length() <= 0x7FFF_FFFF && offset <= x.Length()
    requires ReadDone(Spans(m, [extent]), Served(entries, m, [extent]), offset, length, before, after, ret)
    ensures ret == Least(length, x.Length() - offset) && ret <= |before|
    ensures after == x.Data(m)[offset..offset + ret] + before[ret..]
  {
    SingleExtent(entries, m, extent, h, x);
    hide HoldsExtent, Served, Spans, Extent.Data, ReadDone, Written, Extent.Length, Extent.Valid;
    var spans, content := Spans(m, [extent]), Served(entries, m, [extent]);
    assert spans == [Runs.Span(0, x.Length(), true)];
    SingleSpan(x.Length(), offset, length);
    SmallFileRead(spans, content, offset, length, before, after, ret);
    var n := Runs.Unbroken(spans, offset, length);
    hide Runs.Unbroken;
    WrittenParts(content, offset, before, after, n);
  }

  lemma {:induction false} SingleSpan(size: nat, offset: nat, length: nat)
    requires size > 0
    ensures var spans := [Runs.Span(0, size, true)];
            Readable(spans, offset)
            && Runs.Unbroken(spans, offset, length) == Runs.Remaining(size, offset, length)
  {
    hide Runs.Unbroken;
    Runs.TiledUnbroken([Runs.Span(0, size, true)], offset, length);
  }

  lemma WrittenParts(content: seq<byte>, offset: nat, before: seq<byte>, after: seq<byte>, n: nat)
    requires Written(content, offset, before, after, 0, n) && offset <= |content|
    ensures n <= |before| && offset + n <= |content|
    ensures after == content[offset..offset + n] + before[n..]
  {}

  /** Wherever a read starts in a file, if the last extent that starts there or before is of a kind from
      3 on, the call returns -EINVAL and leaves the buffer alone. */
  lemma {:induction false} UnknownKindRead(m: Memory, extents: seq<Item>, k: nat, h: Head, ramBytes: u64, kind: byte,
                                           content: seq<byte>, offset: nat, length: nat, before: seq<byte>,
                                           after: seq<byte>, ret: int)
    requires Runs.Ordered(Spans(m, extents)) && k < |extents| && extents[k].key.offset <= offset
    requires k + 1 < |extents| ==> offset < extents[k + 1].key.offset
    requires Holds(m, extents[k].data,
                   StoreExtentHead(h.generation, ramBytes, h.compression, h.encryption, h.other, kind))
    requires kind >= 3 && length > 0
    requires ReadDone(Spans(m, extents), content, offset, length, before, after, ret)
    ensures ret == -22 && after == before
  {
    hide RamBytes, ExtentType, StoreExtentHead, Holds, Runs.Ordered, Runs.Next, Runs.Failure;
    LoadStoreExtentHead(m, extents[k].data, h.generation, ramBytes, h.compression, h.encryption, h.other, kind);
    Runs.NextInSpan(Spans(m, extents), k, offset, length);
  }
}
